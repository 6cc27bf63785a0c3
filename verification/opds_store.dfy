/** The stored catalog servers: loading with migration and collapsing, adding, updating, removing. */
module OpdsStore {
  import opened Basics

  const MAX_SERVERS: nat := 8
  const EBOOKS_URL: string := "http://midad.one/opds"
  const EBOOKS_NAME: string := "Midad"
  const EBOOKS_HOST: string := "midad.one"
  const EBOOKS_LEGACY_HOST: string := "foulad.one"

  datatype Server = Server(name: string, url: string, username: string, password: string, isDeviceToken: bool)

  /** One object of the stored file. `legacyPassword` says that the password was not yet stored in
      the obfuscated form, which asks for the file to be written again. */
  datatype Stored = Stored(server: Server, legacyPassword: bool)

  // ---------------------------------------------------------------- isFouladEbooksUrl

  /** Position of the first character of s that is in the set, or |s|. */
  function FindFirstOf(s: string, chars: set<char>): (i: nat)
    ensures i <= |s|
  {
    if s == "" || s[0] in chars then 0 else 1 + FindFirstOf(s[1..], chars)
  }

  function FindScheme(s: string): (i: nat)
    ensures i < |s| ==> i + 3 <= |s|
  {
    if |s| < 3 then |s| else if s[..3] == "://" then 0 else var i := FindScheme(s[1..]); 1 + i
  }

  function AfterLastAt(s: string): string {
    var i := FindFirstOf(s, {'@'});
    if i == |s| then s else AfterLastAt(s[i + 1..])
  }

  function Lower(c: char): char { if 'A' <= c <= 'Z' then c + 32 as char else c }

  predicate HostEquals(host: string, expected: string) {
    |host| == |expected| && forall i :: 0 <= i < |host| ==> Lower(host[i]) == expected[i]
  }

  predicate IsEbooksUrl(url: string) {
    var i := FindScheme(url);
    i < |url| &&
    var afterScheme := url[i + 3..];
    var authority := afterScheme[..FindFirstOf(afterScheme, {'/', '?', '#'})];
    var hostPort := AfterLastAt(authority);
    var host := hostPort[..FindFirstOf(hostPort, {':'})];
    HostEquals(host, EBOOKS_HOST) || HostEquals(host, EBOOKS_LEGACY_HOST)
  }

  /** The same host name but for capitals. */
  predicate SameHost(host: string, expected: string) {
    |host| == |expected|
    && forall i :: 0 <= i < |host| ==> host[i] == expected[i] || ('A' <= host[i] <= 'Z' && host[i] as int + 32 == expected[i] as int)
  }

  predicate Without(s: string, chars: set<char>) { forall i :: 0 <= i < |s| ==> s[i] !in chars }

  lemma {:induction false} FindsFirst(a: string, b: string, chars: set<char>)
    requires Without(a, chars) && (b == "" || b[0] in chars)
    ensures FindFirstOf(a + b, chars) == |a|
  {
    if a == "" {
      assert a + b == b;
    } else {
      hide FindFirstOf;
      FirstStep(a + b, chars);
      CutConcat(a, b, 1);
      FindsFirst(a[1..], b, chars);
    }
  }

  lemma {:induction false} FirstStep(s: string, chars: set<char>)
    requires s != "" && s[0] !in chars
    ensures FindFirstOf(s, chars) == 1 + FindFirstOf(s[1..], chars)
  {
  }

  lemma {:induction false} FindsEnd(a: string, b: string, chars: set<char>)
    requires Without(a, chars) && (b == "" || b[0] in chars)
    ensures FindFirstOf(a + b, chars) == |a| && (a + b)[..|a|] == a && (a + b)[|a|..] == b
  {
    hide FindFirstOf;
    FindsFirst(a, b, chars);
    CutConcat(a, b, |a|);
  }

  lemma {:induction false} FindsScheme(scheme: string, rest: string)
    requires Without(scheme, {':'})
    ensures FindScheme(scheme + "://" + rest) == |scheme|
  {
    var s := scheme + "://" + rest;
    if scheme == "" {
      assert s[..3] == "://";
    } else {
      assert s[..3][0] == scheme[0];
      assert s[1..] == scheme[1..] + "://" + rest;
      FindsScheme(scheme[1..], rest);
    }
  }

  predicate SchemeEndsAt(s: string, i: nat) { i + 3 <= |s| && s[i] == ':' && s[i + 1] == '/' && s[i + 2] == '/' }

  lemma {:induction false} NoSchemeFound(s: string)
    requires forall i: nat :: !SchemeEndsAt(s, i)
    ensures FindScheme(s) == |s|
  {
    if |s| >= 3 {
      assert !SchemeEndsAt(s, 0);
      forall i: nat ensures !SchemeEndsAt(s[1..], i) { assert !SchemeEndsAt(s, i + 1); }
      NoSchemeFound(s[1..]);
    }
  }

  lemma {:induction false} AfterUser(user: string, hostPort: string)
    requires Without(hostPort, {'@'})
    ensures AfterLastAt(hostPort) == hostPort && AfterLastAt(user + "@" + hostPort) == hostPort
    decreases |user|
  {
    FindsEnd(hostPort, "", {'@'});
    assert hostPort + "" == hostPort;
    var i := FindFirstOf(user, {'@'});
    var s := user + "@" + hostPort;
    FirstIsFound(user, {'@'});
    if i == |user| {
      FindsEnd(user, "@" + hostPort, {'@'});
      assert s == user + ("@" + hostPort) && s[i + 1..] == hostPort;
    } else {
      assert Without(user[..i], {'@'}) && s == user[..i] + (user[i..] + "@" + hostPort);
      FindsEnd(user[..i], user[i..] + "@" + hostPort, {'@'});
      assert s[i + 1..] == user[i + 1..] + "@" + hostPort;
      AfterUser(user[i + 1..], hostPort);
    }
  }

  lemma {:induction false} FirstIsFound(s: string, chars: set<char>)
    ensures var i := FindFirstOf(s, chars); Without(s[..i], chars) && (i < |s| ==> s[i] in chars)
  {
    if s != "" && s[0] !in chars {
      FirstIsFound(s[1..], chars);
      var i := FindFirstOf(s[1..], chars);
      assert s[..i + 1] == [s[0]] + s[1..][..i];
    }
  }

  lemma HostEqualsIsSameHost(host: string)
    ensures HostEquals(host, EBOOKS_HOST) <==> SameHost(host, "midad.one")
    ensures HostEquals(host, EBOOKS_LEGACY_HOST) <==> SameHost(host, "foulad.one")
  {
    LowerHosts();
  }

  lemma LowerHosts()
    ensures forall i :: 0 <= i < |EBOOKS_HOST| ==> !('A' <= EBOOKS_HOST[i] <= 'Z')
    ensures forall i :: 0 <= i < |EBOOKS_LEGACY_HOST| ==> !('A' <= EBOOKS_LEGACY_HOST[i] <= 'Z')
    ensures EBOOKS_HOST == "midad.one" && EBOOKS_LEGACY_HOST == "foulad.one"
  {
  }

  /** An address, whatever its scheme, user, port and path, is the catalog's exactly if its host is one
      of the catalog's two, but for capitals. */
  lemma OwnAddresses(scheme: string, user: Option<string>, host: string, port: Option<string>, tail: string)
    requires Without(scheme, {':'})
    requires user.Some? ==> Without(user.value, {'/', '?', '#'})
    requires Without(host, {'/', '?', '#', '@', ':'})
    requires port.Some? ==> Without(port.value, {'/', '?', '#', '@'})
    requires tail == "" || tail[0] in {'/', '?', '#'}
    ensures var hostPort := host + (match port case Some(p) => ":" + p case None => "");
            var authority := (match user case Some(u) => u + "@" case None => "") + hostPort;
            IsEbooksUrl(scheme + "://" + (authority + tail)) <==> SameHost(host, "midad.one") || SameHost(host, "foulad.one")
  {
    hide FindFirstOf, FindScheme, AfterLastAt, HostEquals, SameHost;
    var portPart := match port case Some(p) => ":" + p case None => "";
    var hostPort := host + portPart;
    var authority := (match user case Some(u) => u + "@" case None => "") + hostPort;
    var url := scheme + "://" + (authority + tail);
    FindsScheme(scheme, authority + tail);
    assert url[|scheme| + 3..] == authority + tail;
    assert Without(hostPort, {'/', '?', '#', '@'});
    assert Without(authority, {'/', '?', '#'});
    FindsEnd(authority, tail, {'/', '?', '#'});
    if user.Some? { AfterUser(user.value, hostPort); } else { AfterUser("", hostPort); assert authority == hostPort; }
    FindsEnd(host, portPart, {':'});
    HostEqualsIsSameHost(host);
  }

  /** What has no scheme is no address of the catalog. */
  lemma NoAddressWithoutScheme(url: string)
    requires forall i: nat :: !SchemeEndsAt(url, i)
    ensures !IsEbooksUrl(url)
  {
    NoSchemeFound(url);
  }

  // ---------------------------------------------------------------- what loading amounts to

  predicate NeedsMigration(s: Server) { s.url != "" && s.url != EBOOKS_URL && IsEbooksUrl(s.url) }

  function Normalised(s: Server): Server {
    if NeedsMigration(s) then s.(url := EBOOKS_URL, name := EBOOKS_NAME) else s
  }

  function NormalisedAll(raw: seq<Stored>): (ns: seq<Server>)
    ensures |ns| == |raw| && forall i :: 0 <= i < |raw| ==> ns[i] == Normalised(raw[i].server)
  {
    if raw == [] then [] else NormalisedAll(raw[..|raw| - 1]) + [Normalised(raw[|raw| - 1].server)]
  }

  ghost predicate DistinctUrls(servers: seq<Server>) {
    forall i, j :: 0 <= i < j < |servers| ==> servers[i].url != servers[j].url
  }

  function UrlsOf(ns: seq<Server>): (us: seq<string>)
    ensures |us| == |ns| && forall i :: 0 <= i < |ns| ==> us[i] == ns[i].url
  {
    seq(|ns|, i requires 0 <= i < |ns| => ns[i].url)
  }

  /** The different URLs in order of first appearance. */
  function FirstUrls(ns: seq<Server>): seq<string> { Firsts(UrlsOf(ns)) }

  /** s is the first entry for its URL that has a password, or the first entry if none has. */
  ghost predicate Represents(ns: seq<Server>, s: Server) {
    exists i :: 0 <= i < |ns| && RepresentsAt(ns, s, i)
  }

  ghost predicate RepresentsAt(ns: seq<Server>, s: Server, i: nat)
    requires i < |ns|
  {
    && ns[i] == s
    && (s.password != "" ==> forall j :: 0 <= j < i && ns[j].url == s.url ==> ns[j].password == "")
    && (s.password == "" ==> (forall j :: 0 <= j < i ==> ns[j].url != s.url)
                             && forall j :: 0 <= j < |ns| && ns[j].url == s.url ==> ns[j].password == "")
  }

  ghost predicate IsCollapseOf(ns: seq<Server>, servers: seq<Server>) {
    && |servers| == |FirstUrls(ns)|
    && forall i :: 0 <= i < |servers| ==> servers[i].url == FirstUrls(ns)[i] && Represents(ns, servers[i])
  }

  /** How many stored entries are looked at: all, or up to the one that fills the eighth place. */
  function StopAt(ns: seq<Server>): (n: nat)
    ensures n <= |ns|
  {
    if ns == [] then 0
    else
      var n := StopAt(ns[..|ns| - 1]);
      if n < |ns| - 1 || |FirstUrls(ns[..|ns| - 1])| >= MAX_SERVERS then n else |ns|
  }

  lemma {:induction false} StopsWhenFull(ns: seq<Server>)
    ensures |FirstUrls(ns[..StopAt(ns)])| <= MAX_SERVERS
    ensures StopAt(ns) < |ns| ==> |FirstUrls(ns[..StopAt(ns)])| == MAX_SERVERS
    ensures forall k :: 0 <= k < StopAt(ns) ==> |FirstUrls(ns[..k])| < MAX_SERVERS
  {
    if ns != [] {
      var front := ns[..|ns| - 1];
      StopsWhenFull(front);
      assert ns == front + [ns[|ns| - 1]];
      FirstUrlsSnoc(front, ns[|ns| - 1]);
      assert forall k :: 0 <= k <= |front| ==> front[..k] == ns[..k];
      assert ns[..|ns|] == ns;
    }
  }

  lemma FirstUrlsDistinct(ns: seq<Server>)
    ensures forall i, j :: 0 <= i < j < |FirstUrls(ns)| ==> FirstUrls(ns)[i] != FirstUrls(ns)[j]
    ensures forall u :: u in FirstUrls(ns) <==> exists i :: 0 <= i < |ns| && ns[i].url == u
  {
    FirstsAreTheValues(UrlsOf(ns));
    forall u ensures u in FirstUrls(ns) <==> exists i :: 0 <= i < |ns| && ns[i].url == u {
      if u in UrlsOf(ns) {
        var i :| 0 <= i < |ns| && UrlsOf(ns)[i] == u;
        assert ns[i].url == u;
      }
    }
  }

  // ---------------------------------------------------------------- one more entry

  lemma StillRepresents(ns: seq<Server>, s: Server, extra: Server)
    requires Represents(ns, s) && (extra.url != s.url || s.password != "" || extra.password == "")
    ensures Represents(ns + [extra], s)
  {
    var i :| 0 <= i < |ns| && RepresentsAt(ns, s, i);
    assert RepresentsAt(ns + [extra], s, i);
  }

  lemma NewRepresents(ns: seq<Server>, extra: Server)
    requires forall j :: 0 <= j < |ns| && ns[j].url == extra.url ==> ns[j].password == "" && extra.password != ""
    ensures Represents(ns + [extra], extra)
  {
    assert RepresentsAt(ns + [extra], extra, |ns|);
  }

  lemma EmptyMeansAllEmpty(ns: seq<Server>, s: Server)
    requires Represents(ns, s) && s.password == ""
    ensures forall j :: 0 <= j < |ns| && ns[j].url == s.url ==> ns[j].password == ""
  {
  }

  lemma NotYetThere(ns: seq<Server>, url: string)
    requires url !in FirstUrls(ns)
    ensures forall j :: 0 <= j < |ns| ==> ns[j].url != url
  {
    FirstUrlsDistinct(ns);
  }

  lemma FirstUrlsSnoc(ns: seq<Server>, s: Server)
    ensures FirstUrls(ns + [s]) == if s.url in FirstUrls(ns) then FirstUrls(ns) else FirstUrls(ns) + [s.url]
  {
    FirstsSnoc(UrlsOf(ns), s.url);
    assert UrlsOf(ns + [s]) == UrlsOf(ns) + [s.url];
  }

  method FindUrl(servers: seq<Server>, url: string) returns (k: nat)
    ensures k <= |servers| && (k < |servers| ==> servers[k].url == url)
    ensures forall i :: 0 <= i < k ==> servers[i].url != url
  {
    k := 0;
    while k < |servers| && servers[k].url != url
      invariant k <= |servers| && forall i :: 0 <= i < k ==> servers[i].url != url
    {
      k := k + 1;
    }
  }

  /** Takes one normalised entry in: a new URL is appended, a known one only supplies a password. */
  method Absorb(servers: seq<Server>, s: Server, ghost ns: seq<Server>) returns (servers2: seq<Server>, collapsed: bool)
    requires IsCollapseOf(ns, servers)
    ensures IsCollapseOf(ns + [s], servers2) && |servers2| == |FirstUrls(ns + [s])|
    ensures collapsed <==> s.url in FirstUrls(ns)
  {
    hide Represents, FirstUrls;
    FirstUrlsSnoc(ns, s);
    FirstUrlsDistinct(ns);
    var k := FindUrl(servers, s.url);
    collapsed := k < |servers|;
    if collapsed {
      assert s.url == FirstUrls(ns)[k];
      if servers[k].password == "" && s.password != "" {
        servers2 := servers[k := s];
        EmptyMeansAllEmpty(ns, servers[k]);
        NewRepresents(ns, s);
      } else {
        servers2 := servers;
      }
      forall i | 0 <= i < |servers2| ensures Represents(ns + [s], servers2[i]) {
        if i != k {
          StillRepresents(ns, servers[i], s);
        } else if servers2[k] == servers[k] && !(servers[k].password == "" && s.password != "") {
          StillRepresents(ns, servers[k], s);
        }
      }
    } else {
      assert forall i :: 0 <= i < |servers| ==> FirstUrls(ns)[i] != s.url;
      NotYetThere(ns, s.url);
      NewRepresents(ns, s);
      servers2 := servers + [s];
      forall i | 0 <= i < |servers| ensures Represents(ns + [s], servers[i]) {
        StillRepresents(ns, servers[i], s);
      }
    }
  }

  method Migrate(stored: Stored) returns (server: Server, resave: bool)
    ensures server == Normalised(stored.server)
    ensures resave <==> stored.legacyPassword || NeedsMigration(stored.server)
  {
    hide IsEbooksUrl;
    server, resave := stored.server, stored.legacyPassword;
    if server.url != "" && server.url != EBOOKS_URL && IsEbooksUrl(server.url) {
      server := server.(url := EBOOKS_URL, name := EBOOKS_NAME);
      resave := true;
    }
  }

  // ---------------------------------------------------------------- the store

  class OpdsServerStore {
    var servers: seq<Server>

    ghost predicate Valid()
      reads this
    {
      |servers| <= MAX_SERVERS && DistinctUrls(servers)
    }

    constructor ()
      ensures Valid() && servers == []
    {
      servers := [];
    }

    method ToJson() returns (raw: seq<Stored>)
      ensures |raw| == |servers| && forall i :: 0 <= i < |raw| ==> raw[i] == Stored(servers[i], false)
    {
      raw := [];
      for i := 0 to |servers|
        invariant |raw| == i && forall k :: 0 <= k < i ==> raw[k] == Stored(servers[k], false)
      {
        raw := raw + [Stored(servers[i], false)];
      }
    }

    /** Loading: the looked-at entries, normalised and collapsed. The file is to be written again
        exactly if some looked-at entry was migrated, collapsed or had an old password. */
    method FromJson(raw: seq<Stored>) returns (needsResave: bool)
      modifies this
      ensures Valid()
      ensures var ns := NormalisedAll(raw); IsCollapseOf(ns[..StopAt(ns)], servers)
      ensures needsResave <==> exists i :: 0 <= i < StopAt(NormalisedAll(raw)) && AsksForResave(raw, i)
    {
      hide Represents, IsEbooksUrl, FirstUrls, IsCollapseOf, NeedsMigration, Normalised, AsksForResave, DistinctUrls;
      servers := [];
      needsResave := false;
      ghost var ns := NormalisedAll(raw);
      var n := 0;
      NothingCollapses();
      assert ns[..0] == [];
      while n < |raw| && |servers| < MAX_SERVERS
        invariant n <= |raw| && IsCollapseOf(ns[..n], servers) && |servers| == |FirstUrls(ns[..n])| <= MAX_SERVERS
        invariant forall k :: 0 <= k < n ==> |FirstUrls(ns[..k])| < MAX_SERVERS
        invariant needsResave <==> exists i :: 0 <= i < n && AsksForResave(raw, i)
      {
        var server, resave := Migrate(raw[n]);
        var collapsed;
        assert ns[..n + 1] == ns[..n] + [server];
        FirstUrlsSnoc(ns[..n], server);
        AsksMeaning(raw, n);
        servers, collapsed := Absorb(servers, server, ns[..n]);
        resave := resave || collapsed;
        assert resave <==> AsksForResave(raw, n);
        needsResave := needsResave || resave;
        n := n + 1;
      }
      StopIs(ns, n);
      CollapseIsDistinct(ns[..n], servers);
    }

    /** Signing in again to a known server replaces its entry; a ninth server is refused. */
    method AddServer(server: Server, saveWorks: bool) returns (ok: bool)
      requires Valid()
      modifies this
      ensures Valid()
      ensures forall k :: 0 <= k < |old(servers)| && old(servers)[k].url == server.url ==>
                servers == old(servers)[k := server] && ok == saveWorks
      ensures (forall k :: 0 <= k < |old(servers)| ==> old(servers)[k].url != server.url) ==>
                if |old(servers)| < MAX_SERVERS then servers == old(servers) + [server] && ok == saveWorks
                else servers == old(servers) && !ok
    {
      var k := FindUrl(servers, server.url);
      if k < |servers| {
        servers := servers[k := server];
        return saveWorks;
      }
      if |servers| >= MAX_SERVERS { return false; }
      servers := servers + [server];
      ok := saveWorks;
    }

    /** Overwrites without looking at the other entries. */
    method UpdateServer(index: nat, server: Server, saveWorks: bool) returns (ok: bool)
      requires Valid()
      modifies this
      ensures index >= |old(servers)| ==> !ok && servers == old(servers)
      ensures index < |old(servers)| ==> ok == saveWorks && servers == old(servers)[index := server]
      ensures Valid() <==> index >= |old(servers)| || UrlFreeExcept(old(servers), index, server.url)
    {
      if index >= |servers| { return false; }
      UpdateKeepsDistinct(servers, index, server);
      servers := servers[index := server];
      ok := saveWorks;
    }

    method RemoveServer(index: nat, saveWorks: bool) returns (ok: bool)
      requires Valid()
      modifies this
      ensures Valid()
      ensures index >= |old(servers)| ==> !ok && servers == old(servers)
      ensures index < |old(servers)| ==> ok == saveWorks && servers == old(servers)[..index] + old(servers)[index + 1..]
    {
      if index >= |servers| { return false; }
      servers := servers[..index] + servers[index + 1..];
      ok := saveWorks;
    }
  }

  /** No entry other than the one at the index has the URL. */
  predicate UrlFreeExcept(servers: seq<Server>, index: nat, url: string) {
    forall k :: 0 <= k < |servers| && k != index ==> servers[k].url != url
  }

  /** Updating keeps the URLs distinct exactly when the new URL is not another entry's. */
  lemma UpdateKeepsDistinct(servers: seq<Server>, index: nat, server: Server)
    requires DistinctUrls(servers) && index < |servers|
    ensures DistinctUrls(servers[index := server]) <==> UrlFreeExcept(servers, index, server.url)
  {
    var after := servers[index := server];
    if DistinctUrls(after) {
      forall k | 0 <= k < |servers| && k != index ensures servers[k].url != server.url {
        assert after[k] == servers[k] && after[index] == server;
      }
    }
  }

  /** An entry that was migrated, that repeats an earlier one, or whose password was in the old form. */
  ghost predicate AsksForResave(raw: seq<Stored>, i: nat)
    requires i < |raw|
  {
    || raw[i].legacyPassword || NeedsMigration(raw[i].server)
    || exists j :: 0 <= j < i && Normalised(raw[j].server).url == Normalised(raw[i].server).url
  }

  lemma {:induction false} AsksMeaning(raw: seq<Stored>, i: nat)
    requires i < |raw|
    ensures var ns := NormalisedAll(raw);
            AsksForResave(raw, i) <==>
              raw[i].legacyPassword || NeedsMigration(raw[i].server) || ns[i].url in FirstUrls(ns[..i])
  {
    hide NeedsMigration, Normalised, FirstUrls;
    var ns := NormalisedAll(raw);
    var url := ns[i].url;
    FirstUrlsDistinct(ns[..i]);
    if url in FirstUrls(ns[..i]) {
      var j :| 0 <= j < |ns[..i]| && ns[..i][j].url == url;
      assert Normalised(raw[j].server).url == url;
    }
    if j :| 0 <= j < i && Normalised(raw[j].server).url == Normalised(raw[i].server).url {
      assert ns[..i][j].url == url;
    }
  }

  lemma NothingCollapses()
    ensures IsCollapseOf([], []) && FirstUrls([]) == []
  {
  }

  lemma {:induction false} StopIs(ns: seq<Server>, n: nat)
    requires n <= |ns| && (n < |ns| ==> |FirstUrls(ns[..n])| >= MAX_SERVERS)
    requires forall k :: 0 <= k < n ==> |FirstUrls(ns[..k])| < MAX_SERVERS
    ensures StopAt(ns) == n
  {
    StopsWhenFull(ns);
  }

  lemma CollapseIsDistinct(ns: seq<Server>, servers: seq<Server>)
    requires IsCollapseOf(ns, servers)
    ensures DistinctUrls(servers)
  {
    FirstUrlsDistinct(ns);
  }

  // ---------------------------------------------------------------- consequences

  lemma NormalisedIsCanonical(s: Server)
    ensures IsEbooksUrl(Normalised(s).url) ==> Normalised(s).url == EBOOKS_URL
    ensures Normalised(s).url == EBOOKS_URL <==> s.url == EBOOKS_URL || NeedsMigration(s)
  {
  }

  /** Migrating changes the address and the name and nothing else, and only of the catalog's entries
      that have an outdated address. */
  lemma MigrationKeepsTheAccount(s: Server)
    ensures var m := Normalised(s);
            && m.username == s.username && m.password == s.password && m.isDeviceToken == s.isDeviceToken
            && (m != s ==> m.url == "http://midad.one/opds" && m.name == "Midad")
            && (s.url != "http://midad.one/opds" && IsEbooksUrl(s.url) ==> m.url == "http://midad.one/opds" && m.name == "Midad")
            && (!IsEbooksUrl(s.url) || s.url == "http://midad.one/opds" ==> m == s)
  {
    if s.url == "" { NoAddressWithoutScheme(s.url); }
  }

  /** After loading, an entry of the built-in catalog has its current address, so there is at most
      one, and there is one exactly if a looked-at entry was for that catalog in any form. */
  lemma {:induction false} OneCanonicalCatalog(raw: seq<Stored>, servers: seq<Server>)
    requires var ns := NormalisedAll(raw); IsCollapseOf(ns[..StopAt(ns)], servers)
    ensures forall i :: 0 <= i < |servers| && IsEbooksUrl(servers[i].url) ==> servers[i].url == EBOOKS_URL
    ensures (exists i :: 0 <= i < |servers| && servers[i].url == EBOOKS_URL) <==>
              exists i :: 0 <= i < StopAt(NormalisedAll(raw))
                && (raw[i].server.url == EBOOKS_URL || NeedsMigration(raw[i].server))
  {
    hide IsEbooksUrl, Normalised, NeedsMigration, StopAt, FirstUrls;
    var ns := NormalisedAll(raw);
    var seen := ns[..StopAt(ns)];
    FirstUrlsDistinct(seen);
    forall i | 0 <= i < |raw|
      ensures IsEbooksUrl(ns[i].url) ==> ns[i].url == EBOOKS_URL
      ensures ns[i].url == EBOOKS_URL <==> raw[i].server.url == EBOOKS_URL || NeedsMigration(raw[i].server)
    {
      NormalisedIsCanonical(raw[i].server);
    }
    forall i | 0 <= i < |servers| && IsEbooksUrl(servers[i].url) ensures servers[i].url == EBOOKS_URL {
      var k :| 0 <= k < |seen| && RepresentsAt(seen, servers[i], k);
      assert seen[k] == ns[k];
    }
    CanonicalAmong(seen, servers);
    assert forall i :: 0 <= i < |seen| ==> seen[i] == ns[i];
  }

  lemma CanonicalAmong(seen: seq<Server>, servers: seq<Server>)
    requires IsCollapseOf(seen, servers)
    ensures (exists i :: 0 <= i < |servers| && servers[i].url == EBOOKS_URL) <==>
              exists i :: 0 <= i < |seen| && seen[i].url == EBOOKS_URL
  {
    hide Represents, FirstUrls;
    FirstUrlsDistinct(seen);
    var urls := FirstUrls(seen);
    if i :| 0 <= i < |servers| && servers[i].url == EBOOKS_URL { assert urls[i] in urls; }
    if i :| 0 <= i < |seen| && seen[i].url == EBOOKS_URL {
      assert EBOOKS_URL in urls;
      var k :| 0 <= k < |urls| && urls[k] == EBOOKS_URL;
      assert servers[k].url == EBOOKS_URL;
    }
  }

  lemma UrlsOfDistinct(servers: seq<Server>)
    requires DistinctUrls(servers)
    ensures |FirstUrls(servers)| == |servers|
    ensures forall i :: 0 <= i < |servers| ==> FirstUrls(servers)[i] == servers[i].url
  {
    FirstsOfDistinct(UrlsOf(servers));
  }

  lemma CollapseOfDistinct(servers: seq<Server>, again: seq<Server>)
    requires DistinctUrls(servers) && IsCollapseOf(servers, again)
    ensures again == servers
  {
    hide FirstUrls;
    UrlsOfDistinct(servers);
    forall i | 0 <= i < |servers| ensures again[i] == servers[i] {
      var k :| 0 <= k < |servers| && RepresentsAt(servers, again[i], k);
      assert servers[k].url == servers[i].url;
    }
  }

  lemma {:induction false} LooksAtAllDistinct(servers: seq<Server>)
    requires |servers| <= MAX_SERVERS && DistinctUrls(servers)
    ensures servers[..StopAt(servers)] == servers
  {
    hide FirstUrls, StopAt;
    forall k | 0 <= k < |servers| ensures |FirstUrls(servers[..k])| < MAX_SERVERS { UrlsOfDistinct(servers[..k]); }
    StopIs(servers, |servers|);
  }

  /** Saving what was loaded and loading it again changes nothing and asks for no further save. */
  lemma {:induction false} ReloadIsAFixedPoint(servers: seq<Server>, raw: seq<Stored>, again: seq<Server>)
    requires |servers| <= MAX_SERVERS && DistinctUrls(servers)
    requires forall i :: 0 <= i < |servers| ==> !NeedsMigration(servers[i])
    requires |raw| == |servers| && forall i :: 0 <= i < |raw| ==> raw[i] == Stored(servers[i], false)
    requires var ns := NormalisedAll(raw); IsCollapseOf(ns[..StopAt(ns)], again)
    ensures again == servers
    ensures forall i :: 0 <= i < |raw| ==> !AsksForResave(raw, i)
  {
    hide NeedsMigration, StopAt, IsCollapseOf;
    assert NormalisedAll(raw) == servers;
    LooksAtAllDistinct(servers);
    CollapseOfDistinct(servers, again);
  }

  /** What loading leaves can be saved and loaded again unchanged. */
  lemma {:induction false} LoadedListsAreStable(raw: seq<Stored>, servers: seq<Server>)
    requires var ns := NormalisedAll(raw); IsCollapseOf(ns[..StopAt(ns)], servers)
    ensures |servers| <= MAX_SERVERS && DistinctUrls(servers)
    ensures forall i :: 0 <= i < |servers| ==> !NeedsMigration(servers[i])
  {
    StopsWhenFull(NormalisedAll(raw));
    CollapseIsDistinct(NormalisedAll(raw)[..StopAt(NormalisedAll(raw))], servers);
    OneCanonicalCatalog(raw, servers);
  }
}
