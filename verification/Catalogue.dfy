/** The server catalogue: what is read from the server's JSON list, the port list that is
    published for each encryption, and how the rest of the program reads that list. */
module Catalogue {
  import opened Options
  import opened PortNames
  import opened Settings
  import opened Sorting

  // in the order of the encryption enumeration
  const TYPES := ["plain", "obfs2", "obfs3", "scramblesuit", "ecc", "xor"]

  /** One server of the JSON list; a list of ports that is missing there reads as empty. */
  datatype ServerJson = ServerJson(
    name: string, hostname: string, ip: string, tcp: map<string, seq<int32>>, udp: map<string, seq<int32>>)

  // ----- the published lists

  function Protocols(tcp: bool, ports: seq<int32>): seq<Protocol> {
    seq(|ports|, i requires 0 <= i < |ports| => Protocol(tcp, ports[i]))
  }

  function PortsOf(ports: map<string, seq<int32>>, e: int): seq<int32> {
    if 0 <= e < ENCRYPTION_COUNT then Get(ports, TYPES[e], []) else []
  }

  /** What a server offers for an encryption. */
  function Offered(s: ServerJson, e: int): seq<Protocol> {
    Protocols(true, PortsOf(s.tcp, e)) + Protocols(false, PortsOf(s.udp, e))
  }

  function Add(list: seq<Protocol>, p: Protocol): seq<Protocol> {
    if p in list then list else list + [p]
  }

  function AddAll(list: seq<Protocol>, ps: seq<Protocol>): seq<Protocol> {
    if ps == [] then list else Add(AddAll(list, ps[..|ps| - 1]), ps[|ps| - 1])
  }

  function Published(servers: seq<ServerJson>, e: int): seq<Protocol> {
    if servers == [] then []
    else AddAll(Published(servers[..|servers| - 1], e), Offered(servers[|servers| - 1], e))
  }

  function Names(list: seq<Protocol>): seq<string> {
    seq(|list|, i requires 0 <= i < |list| => DisplayName(list[i]))
  }

  function Numbers(list: seq<Protocol>): seq<int32> {
    seq(|list|, i requires 0 <= i < |list| => list[i].port)
  }

  predicate Unique<T(==)>(s: seq<T>) {
    forall i, j | 0 <= i < j < |s| :: s[i] != s[j]
  }

  ghost predicate Offers(servers: seq<ServerJson>, e: int, p: Protocol) {
    exists k | 0 <= k < |servers| :: p in Offered(servers[k], e)
  }

  lemma {:induction false} AddAllAppend(list: seq<Protocol>, a: seq<Protocol>, b: seq<Protocol>)
    ensures AddAll(list, a + b) == AddAll(AddAll(list, a), b)
    decreases |b|
  {
    if b == [] {
      assert a + b == a;
    } else {
      assert a + b == (a + b[..|b| - 1]) + [b[|b| - 1]];
      AddAllAppend(list, a, b[..|b| - 1]);
    }
  }

  lemma {:induction false} AddAllHas(list: seq<Protocol>, ps: seq<Protocol>)
    requires Unique(list)
    ensures Unique(AddAll(list, ps))
    ensures forall p :: p in AddAll(list, ps) <==> p in list || p in ps
    decreases |ps|
  {
    if ps != [] {
      var before, last := ps[..|ps| - 1], ps[|ps| - 1];
      AddAllHas(list, before);
      assert ps == before + [last];
    }
  }

  lemma OffersNext(servers: seq<ServerJson>, e: int, p: Protocol)
    requires servers != []
    ensures var n := |servers| - 1; Offers(servers, e, p) <==> Offers(servers[..n], e, p) || p in Offered(servers[n], e)
  {
    hide Offered;
    var n := |servers| - 1;
    if Offers(servers[..n], e, p) {
      var k :| 0 <= k < n && p in Offered(servers[..n][k], e);
      assert servers[..n][k] == servers[k];
    }
    if Offers(servers, e, p) {
      var k :| 0 <= k < |servers| && p in Offered(servers[k], e);
      assert k < n ==> servers[..n][k] == servers[k];
    }
  }

  /** The published list holds exactly the ports some server offers, each of them once. */
  lemma {:induction false} PublishedOnce(servers: seq<ServerJson>, e: int)
    ensures Unique(Published(servers, e))
    ensures forall p :: p in Published(servers, e) <==> Offers(servers, e, p)
    decreases |servers|
  {
    if servers != [] {
      var n := |servers| - 1;
      PublishedOnce(servers[..n], e);
      AddAllHas(Published(servers[..n], e), Offered(servers[n], e));
      forall p ensures Offers(servers, e, p) <==> Offers(servers[..n], e, p) || p in Offered(servers[n], e) {
        OffersNext(servers, e, p);
      }
    }
  }

  // ----- the order of the published list

  /** Server k of the list offers p as the m-th port of its TCP or UDP list. */
  predicate OfferedAt(servers: seq<ServerJson>, e: int, p: Protocol, k: nat, m: nat) {
    && k < |servers|
    && var ports := PortsOf(if p.tcp then servers[k].tcp else servers[k].udp, e);
       m < |ports| && ports[m] == p.port
  }

  /** Reading server by server, the TCP list before the UDP list, comes to the first of two
      places before the second. */
  predicate ReadFirst(k: nat, tcp: bool, m: nat, k': nat, tcp': bool, m': nat) {
    k < k' || (k == k' && if tcp == tcp' then m < m' else tcp)
  }

  /** p is offered somewhere before q is offered anywhere. */
  ghost predicate AppearsBefore(servers: seq<ServerJson>, e: int, p: Protocol, q: Protocol) {
    exists k: nat, m: nat :: OfferedAt(servers, e, p, k, m)
      && forall k': nat, m': nat | OfferedAt(servers, e, q, k', m') :: ReadFirst(k, p.tcp, m, k', q.tcp, m')
  }

  lemma {:induction false} AddAllPrefix(list: seq<Protocol>, ps: seq<Protocol>)
    ensures list <= AddAll(list, ps)
    decreases |ps|
  {
    if ps != [] {
      AddAllPrefix(list, ps[..|ps| - 1]);
    }
  }

  /** What is added is added in the order of first appearance. */
  lemma {:induction false} AddAllOrder(list: seq<Protocol>, ps: seq<Protocol>, i: nat, j: nat) returns (x: nat)
    requires Unique(list) && |list| <= i < j < |AddAll(list, ps)|
    ensures x < |ps| && ps[x] == AddAll(list, ps)[i] && AddAll(list, ps)[j] !in ps[..x + 1]
    decreases |ps|
  {
    var before, last := ps[..|ps| - 1], ps[|ps| - 1];
    var all := AddAll(list, before);
    AddAllHas(list, before);
    if j < |all| {
      x := AddAllOrder(list, before, i, j);
      assert ps[..x + 1] == before[..x + 1];
    } else {
      AddAllPrefix(list, before);
      assert all[i] !in list by {
        assert forall y | 0 <= y < |list| :: list[y] == all[y];
      }
      assert all[i] in all;
      x :| 0 <= x < |before| && before[x] == all[i];
      assert forall q | q in ps[..x + 1] :: q in before by {
        assert ps[..x + 1] == before[..x + 1];
      }
    }
  }

  lemma {:induction false} PublishedPrefix(servers: seq<ServerJson>, e: int, k: nat)
    requires k <= |servers|
    ensures Published(servers[..k], e) <= Published(servers, e)
    decreases |servers|
  {
    if k == |servers| {
      assert servers[..k] == servers;
    } else {
      var n := |servers| - 1;
      PublishedPrefix(servers[..n], e, k);
      assert servers[..n][..k] == servers[..k];
      AddAllPrefix(Published(servers[..n], e), Offered(servers[n], e));
    }
  }

  /** The server that brought the i-th port. */
  lemma {:induction false} BroughtBy(servers: seq<ServerJson>, e: int, i: nat) returns (k: nat)
    requires i < |Published(servers, e)|
    ensures k < |servers| && |Published(servers[..k], e)| <= i < |Published(servers[..k + 1], e)|
    decreases |servers|
  {
    hide AddAll, Offered;
    var n := |servers| - 1;
    if i < |Published(servers[..n], e)| {
      k := BroughtBy(servers[..n], e, i);
      assert servers[..n][..k] == servers[..k] && servers[..n][..k + 1] == servers[..k + 1];
    } else {
      k := n;
      assert servers[..n + 1] == servers;
    }
  }

  lemma OfferedPlace(servers: seq<ServerJson>, e: int, p: Protocol, k: nat, m: nat) returns (x: nat)
    requires OfferedAt(servers, e, p, k, m)
    ensures x == if p.tcp then m else |PortsOf(servers[k].tcp, e)| + m
    ensures x < |Offered(servers[k], e)| && Offered(servers[k], e)[x] == p
  {
    x := if p.tcp then m else |PortsOf(servers[k].tcp, e)| + m;
  }

  lemma PlaceOffered(servers: seq<ServerJson>, e: int, k: nat, x: nat) returns (m: nat)
    requires k < |servers| && x < |Offered(servers[k], e)|
    ensures var p := Offered(servers[k], e)[x];
            OfferedAt(servers, e, p, k, m) && x == if p.tcp then m else |PortsOf(servers[k].tcp, e)| + m
  {
    var n := |PortsOf(servers[k].tcp, e)|;
    m := if x < n then x else x - n;
  }

  /** A port is published as soon as one server offers it. */
  lemma PublishedBy(servers: seq<ServerJson>, e: int, k: nat, q: Protocol, k': nat, m': nat)
    requires k' < k <= |servers| && OfferedAt(servers, e, q, k', m')
    ensures q in Published(servers[..k], e)
  {
    PublishedOnce(servers[..k], e);
    var x := OfferedPlace(servers, e, q, k', m');
    assert servers[..k][k'] == servers[k'] && q in Offered(servers[..k][k'], e);
    assert Offers(servers[..k], e, q);
  }

  lemma AmongFirst(ps: seq<Protocol>, y: nat, x: nat)
    requires y <= x < |ps|
    ensures ps[y] in ps[..x + 1]
  {
    assert ps[..x + 1][y] == ps[y];
  }

  /** The ports are published in the order in which they first appear in the list of the
      servers: that order gives each its index. */
  lemma PublishedInOrder(servers: seq<ServerJson>, e: int, i: nat, j: nat)
    requires i < j < |Published(servers, e)|
    ensures AppearsBefore(servers, e, Published(servers, e)[i], Published(servers, e)[j])
  {
    var list := Published(servers, e);
    var p, q := list[i], list[j];
    var k := BroughtBy(servers, e, i);
    var base, upTo := Published(servers[..k], e), Published(servers[..k + 1], e);
    PublishedPrefix(servers, e, k + 1);
    PublishedOnce(servers, e);
    PublishedOnce(servers[..k], e);
    assert servers[..k + 1][..k] == servers[..k];
    assert upTo == AddAll(base, Offered(servers[k], e));
    if j < |upTo| {
      BroughtTogether(servers, e, k, i, j);
    } else {
      assert q !in upTo by {
        assert forall y | 0 <= y < |upTo| :: upTo[y] == list[y];
      }
      BroughtLater(servers, e, k, i, q);
    }
  }

  lemma BroughtTogether(servers: seq<ServerJson>, e: int, k: nat, i: nat, j: nat)
    requires k < |servers| && |Published(servers[..k], e)| <= i < j < |AddAll(Published(servers[..k], e), Offered(servers[k], e))|
    ensures var upTo := AddAll(Published(servers[..k], e), Offered(servers[k], e)); AppearsBefore(servers, e, upTo[i], upTo[j])
  {
    var base := Published(servers[..k], e);
    var upTo := AddAll(base, Offered(servers[k], e));
    var p, q := upTo[i], upTo[j];
    PublishedOnce(servers[..k], e);
    AddAllHas(base, Offered(servers[k], e));
    AddAllPrefix(base, Offered(servers[k], e));
    var x := AddAllOrder(base, Offered(servers[k], e), i, j);
    var m := PlaceOffered(servers, e, k, x);
    assert q !in base by {
      assert forall y | 0 <= y < |base| :: base[y] == upTo[y];
    }
    hide Offered, Published, AddAll;
    forall k': nat, m': nat | OfferedAt(servers, e, q, k', m') ensures ReadFirst(k, p.tcp, m, k', q.tcp, m') {
      if k' < k {
        PublishedBy(servers, e, k, q, k', m');
      } else if k' == k {
        var y := OfferedPlace(servers, e, q, k', m');
        if y <= x {
          AmongFirst(Offered(servers[k], e), y, x);
        }
      }
    }
    assert OfferedAt(servers, e, p, k, m);
  }

  lemma BroughtLater(servers: seq<ServerJson>, e: int, k: nat, i: nat, q: Protocol)
    requires k < |servers| && |Published(servers[..k], e)| <= i < |Published(servers[..k + 1], e)|
    requires q !in Published(servers[..k + 1], e)
    ensures AppearsBefore(servers, e, Published(servers[..k + 1], e)[i], q)
  {
    var p := Published(servers[..k + 1], e)[i];
    var x := BroughtHere(servers, e, k, i);
    var m := PlaceOffered(servers, e, k, x);
    hide Offered, Published;
    forall k': nat, m': nat | OfferedAt(servers, e, q, k', m') ensures ReadFirst(k, p.tcp, m, k', q.tcp, m') {
      if k' < k + 1 {
        PublishedBy(servers, e, k + 1, q, k', m');
      }
    }
    assert OfferedAt(servers, e, p, k, m);
  }

  lemma BroughtHere(servers: seq<ServerJson>, e: int, k: nat, i: nat) returns (x: nat)
    requires k < |servers| && |Published(servers[..k], e)| <= i < |Published(servers[..k + 1], e)|
    ensures x < |Offered(servers[k], e)| && Offered(servers[k], e)[x] == Published(servers[..k + 1], e)[i]
  {
    var base := Published(servers[..k], e);
    assert servers[..k + 1][..k] == servers[..k];
    assert Published(servers[..k + 1], e) == AddAll(base, Offered(servers[k], e));
    PublishedOnce(servers[..k], e);
    hide Published, Offered;
    x := AddedFrom(base, Offered(servers[k], e), i);
  }

  lemma AddedFrom(list: seq<Protocol>, ps: seq<Protocol>, i: nat) returns (x: nat)
    requires Unique(list) && |list| <= i < |AddAll(list, ps)|
    ensures x < |ps| && ps[x] == AddAll(list, ps)[i]
  {
    var all := AddAll(list, ps);
    AddAllHas(list, ps);
    AddAllPrefix(list, ps);
    assert all[i] !in list by {
      assert forall y | 0 <= y < |list| :: list[y] == all[y];
    }
    assert all[i] in all;
    x :| 0 <= x < |ps| && ps[x] == all[i];
  }

  // ----- one server

  /** The ports map of a server after the first n encryption types. */
  function PortMap(ports: map<string, seq<int32>>, n: int): map<int, seq<int32>> {
    map e: int | 0 <= e < n && PortsOf(ports, e) != [] :: PortsOf(ports, e)
  }

  lemma PortMapNext(ports: map<string, seq<int32>>, n: nat)
    ensures PortMap(ports, n + 1) ==
            if PortsOf(ports, n) != [] then PortMap(ports, n)[n := PortsOf(ports, n)] else PortMap(ports, n)
  {}

  /** One entry of supportedPorts: the name is taken apart again. */
  predicate Supports(tcpPorts: map<int, seq<int32>>, udpPorts: map<int, seq<int32>>, e: int, name: string) {
    ToInt(LastWord(name)) in Get(if StartsWithT(name) then tcpPorts else udpPorts, e, [])
  }

  class AServer {
    const mName: string
    const mAddress: string
    const mIP: string
    var mTCPPorts: map<int, seq<int32>>
    var mUDPPorts: map<int, seq<int32>>
    var mPing: int
    var mId: int

    constructor (name: string, address: string, ip: string)
      ensures mName == name && mAddress == address && mIP == ip && mTCPPorts == map[] && mUDPPorts == map[]
    {
      mName, mAddress, mIP := name, address, ip;
      mTCPPorts, mUDPPorts := map[], map[];
    }

    ghost predicate Holds(s: ServerJson) reads this {
      && mName == s.name && mAddress == s.hostname && mIP == s.ip
      && mTCPPorts == PortMap(s.tcp, ENCRYPTION_COUNT) && mUDPPorts == PortMap(s.udp, ENCRYPTION_COUNT)
    }

    method SetPorts(encryption: int, tcp: bool, ports: seq<int32>)
      modifies this`mTCPPorts, this`mUDPPorts
      ensures mTCPPorts == if tcp then old(mTCPPorts)[encryption := ports] else old(mTCPPorts)
      ensures mUDPPorts == if tcp then old(mUDPPorts) else old(mUDPPorts)[encryption := ports]
    {
      if tcp {
        mTCPPorts := mTCPPorts[encryption := ports];
      } else {
        mUDPPorts := mUDPPorts[encryption := ports];
      }
    }

    predicate SupportsEncryption(encryption: int) reads this {
      encryption in mTCPPorts || encryption in mUDPPorts
    }

    method SupportedPorts(setting: Setting, encryption: int) returns (enabled: seq<bool>)
      ensures var names := setting.PortsForEncryption(encryption);
              && |enabled| == |names|
              && forall i | 0 <= i < |names| :: enabled[i] == Supports(mTCPPorts, mUDPPorts, encryption, names[i])
    {
      enabled := [];
      var encryptionPorts := setting.PortsForEncryption(encryption);
      for k := 0 to |encryptionPorts|
        invariant |enabled| == k
        invariant forall i | 0 <= i < k :: enabled[i] == Supports(mTCPPorts, mUDPPorts, encryption, encryptionPorts[i])
      {
        var port := encryptionPorts[k];
        var tcp := StartsWithT(port);
        var portNumber := ToInt(LastWord(port));
        if tcp {
          enabled := enabled + [portNumber in Get(mTCPPorts, encryption, [])];
        } else {
          enabled := enabled + [portNumber in Get(mUDPPorts, encryption, [])];
        }
      }
    }
  }

  // ----- sorting by name

  /** QString's operator<, character by character. */
  predicate NameLess(a: string, b: string) {
    b != "" && (a == "" || a[0] < b[0] || (a[0] == b[0] && NameLess(a[1..], b[1..])))
  }

  /** The names are equal up to position i; there a ends, or has the smaller character. */
  predicate DiffersAt(a: string, b: string, i: nat) {
    && i <= |a| && i < |b| && a[..i] == b[..i]
    && (i == |a| || a[i] < b[i])
  }

  /** a stands before b in a dictionary. */
  predicate Before(a: string, b: string) {
    exists i: nat | i < |b| :: DiffersAt(a, b, i)
  }

  lemma {:induction false} LessIsBefore(a: string, b: string)
    ensures NameLess(a, b) <==> Before(a, b)
  {
    if a == "" {
      assert b != "" ==> DiffersAt(a, b, 0);
    } else if b != "" {
      LessIsBefore(a[1..], b[1..]);
      if a[0] < b[0] {
        assert DiffersAt(a, b, 0);
      } else if a[0] == b[0] {
        DiffersLater(a, b);
      }
      if Before(a, b) && a[0] != b[0] {
        var i: nat :| i < |b| && DiffersAt(a, b, i);
        assert i > 0 ==> a[..i][0] == b[..i][0];
      }
    }
  }

  lemma DiffersLater(a: string, b: string)
    requires a != "" && b != "" && a[0] == b[0]
    ensures Before(a, b) <==> Before(a[1..], b[1..])
  {
    if i: nat :| i < |b| && DiffersAt(a, b, i) {
      assert i > 0 && a[1..][..i - 1] == a[..i][1..] && b[1..][..i - 1] == b[..i][1..];
      assert DiffersAt(a[1..], b[1..], i - 1);
    }
    if i: nat :| i < |b[1..]| && DiffersAt(a[1..], b[1..], i) {
      assert a[..i + 1] == [a[0]] + a[1..][..i] && b[..i + 1] == [b[0]] + b[1..][..i];
      assert DiffersAt(a, b, i + 1);
    }
  }

  /** Two different names always have an order. */
  lemma {:induction false} OneIsLess(a: string, b: string)
    ensures a == b || NameLess(a, b) || NameLess(b, a)
  {
    if a != "" && b != "" && a[0] == b[0] {
      OneIsLess(a[1..], b[1..]);
      assert a == [a[0]] + a[1..] && b == [b[0]] + b[1..];
    }
  }

  lemma {:induction false} NameOrder(a: string, b: string, c: string)
    ensures NameLess(a, b) ==> !NameLess(b, a)
    ensures !NameLess(a, b) && !NameLess(b, c) ==> !NameLess(a, c)
    decreases |a|
  {
    if a != "" && b != "" {
      NameOrder(a[1..], b[1..], if c == "" then "" else c[1..]);
    }
  }

  ghost predicate SortedByName(servers: seq<AServer>) {
    forall i, j | 0 <= i < j < |servers| ::
      servers[i].mName == servers[j].mName || Before(servers[i].mName, servers[j].mName)
  }

  method SortByName(s: seq<AServer>) returns (r: seq<AServer>, ghost order: seq<nat>)
    ensures Rearranged(r, s, order) && SortedByName(r)
  {
    var less := (a: AServer, b: AServer) => NameLess(a.mName, b.mName);
    forall a, b, c | a in s && b in s && c in s
      ensures (less(a, b) ==> !less(b, a)) && (!less(a, b) && !less(b, c) ==> !less(a, c))
    {
      NameOrder(a.mName, b.mName, c.mName);
    }
    r, order := Sort(s, less);
    forall i, j | 0 <= i < j < |r| ensures r[i].mName == r[j].mName || Before(r[i].mName, r[j].mName) {
      assert !less(r[j], r[i]);
      OneIsLess(r[i].mName, r[j].mName);
      LessIsBefore(r[i].mName, r[j].mName);
    }
  }

  // ----- reading the list

  /** The loop over one JSON list of ports. */
  method ReadPorts(list: seq<Protocol>, tcp: bool, values: seq<int32>)
    returns (ports: seq<Protocol>, variants: seq<int32>)
    ensures ports == AddAll(list, Protocols(tcp, values)) && variants == values
  {
    ports, variants := list, [];
    for i := 0 to |values|
      invariant variants == values[..i] && ports == AddAll(list, Protocols(tcp, values[..i]))
    {
      var newProtocol := Protocol(tcp, values[i]);
      variants := variants + [values[i]];
      assert Protocols(tcp, values[..i + 1])[..i] == Protocols(tcp, values[..i]);
      if newProtocol !in ports {
        ports := ports + [newProtocol];
      }
    }
    assert values[..|values|] == values;
  }

  /** One encryption type of one server. */
  method ReadType(s: ServerJson, newServer: AServer, encryption: int, list: seq<Protocol>) returns (ports: seq<Protocol>)
    requires 0 <= encryption < ENCRYPTION_COUNT
    requires newServer.mTCPPorts == PortMap(s.tcp, encryption) && newServer.mUDPPorts == PortMap(s.udp, encryption)
    modifies newServer`mTCPPorts, newServer`mUDPPorts
    ensures ports == AddAll(list, Offered(s, encryption))
    ensures newServer.mTCPPorts == PortMap(s.tcp, encryption + 1) && newServer.mUDPPorts == PortMap(s.udp, encryption + 1)
  {
    ports := list;
    var tcpList := Get(s.tcp, TYPES[encryption], []);
    var udpList := Get(s.udp, TYPES[encryption], []);
    PortMapNext(s.tcp, encryption);
    PortMapNext(s.udp, encryption);
    AddAllAppend(list, Protocols(true, tcpList), Protocols(false, udpList));
    var variants;
    if |tcpList| > 0 {
      ports, variants := ReadPorts(ports, true, tcpList);
      newServer.SetPorts(encryption, true, variants);
    }
    if |udpList| > 0 {
      ports, variants := ReadPorts(ports, false, udpList);
      newServer.SetPorts(encryption, false, variants);
    }
  }

  method ReadServer(s: ServerJson, lists: array<seq<Protocol>>) returns (newServer: AServer)
    requires lists.Length == ENCRYPTION_COUNT
    modifies lists
    ensures fresh(newServer) && newServer.Holds(s) && newServer.mPing == -1
    ensures forall e | 0 <= e < ENCRYPTION_COUNT :: lists[e] == AddAll(old(lists[e]), Offered(s, e))
  {
    newServer := new AServer(s.name, s.hostname, s.ip);
    for encryption := 0 to ENCRYPTION_COUNT
      invariant newServer.mTCPPorts == PortMap(s.tcp, encryption) && newServer.mUDPPorts == PortMap(s.udp, encryption)
      invariant forall e | 0 <= e < encryption :: lists[e] == AddAll(old(lists[e]), Offered(s, e))
      invariant forall e | encryption <= e < ENCRYPTION_COUNT :: lists[e] == old(lists[e])
    {
      var ports := ReadType(s, newServer, encryption, lists[encryption]);
      lists[encryption] := ports;
    }
    newServer.mPing := -1;
  }

  // ----- the model

  /** The names and numbers of the published ports of one encryption. */
  method PortLists(list: seq<Protocol>) returns (portNameList: seq<string>, portNumberList: seq<int32>)
    ensures portNameList == Names(list) && portNumberList == Numbers(list)
  {
    portNameList, portNumberList := [], [];
    for i := 0 to |list|
      invariant portNameList == Names(list[..i]) && portNumberList == Numbers(list[..i])
    {
      portNumberList := portNumberList + [list[i].port];
      portNameList := portNameList + [DisplayName(list[i])];
    }
    assert list[..|list|] == list;
  }

  ghost predicate Shows(setting: Setting, e: int, list: seq<Protocol>) reads setting {
    && e in setting.mPortsByEncryption && setting.mPortsByEncryption[e] == Names(list)
    && e in setting.mPortumbersByEncryption && setting.mPortumbersByEncryption[e] == Numbers(list)
  }

  /** The port lists in the settings are those of these servers. */
  ghost predicate Publishes(setting: Setting, servers: seq<ServerJson>) reads setting {
    forall e | 0 <= e < ENCRYPTION_COUNT :: Shows(setting, e, Published(servers, e))
  }

  class ServersModel {
    const setting: Setting
    var mServers: seq<AServer>

    constructor (setting: Setting)
      ensures this.setting == setting && mServers == []
    {
      this.setting, mServers := setting, [];
    }

    /** Whatever was shown before: the servers of the new list in the order of their names,
        each with its position as id, and their ports published. */
    method UpdateServers(servers: seq<ServerJson>) returns (ghost order: seq<nat>)
      modifies this, setting`mPortsByEncryption, setting`mPortumbersByEncryption
      ensures IsOrder(order, |servers|) && |mServers| == |servers|
      ensures forall i | 0 <= i < |mServers| ::
                fresh(mServers[i]) && mServers[i].Holds(servers[order[i]]) && mServers[i].mId == i && mServers[i].mPing == -1
      ensures SortedByName(mServers) && Publishes(setting, servers)
    {
      mServers := [];
      ghost var added;
      added, order := AppendServers(servers);
      assert [] + added == added;
    }

    /** The servers so far stay, with their ports, but the published lists become those of
        the new ones alone. */
    method AppendServers(servers: seq<ServerJson>) returns (ghost added: seq<AServer>, ghost order: seq<nat>)
      requires Unique(mServers)
      modifies this`mServers, setting`mPortsByEncryption, setting`mPortumbersByEncryption, mServers
      ensures |added| == |servers|
      ensures forall k | 0 <= k < |added| :: fresh(added[k]) && added[k].Holds(servers[k]) && added[k].mPing == -1
      ensures Rearranged(mServers, old(mServers) + added, order) && SortedByName(mServers)
      ensures forall i | 0 <= i < |mServers| :: mServers[i].mId == i
      ensures forall s | s in old(mServers) ::
                s.mTCPPorts == old(s.mTCPPorts) && s.mUDPPorts == old(s.mUDPPorts) && s.mPing == old(s.mPing)
      ensures Publishes(setting, servers)
    {
      var lists := new seq<Protocol>[ENCRYPTION_COUNT](_ => []);
      added := ReadServers(servers, lists);
      order := Arrange();
      PublishPorts(lists[..], servers);
    }

    /** Sorts the servers and numbers them. */
    method Arrange() returns (ghost order: seq<nat>)
      requires Unique(mServers)
      modifies this`mServers, mServers`mId
      ensures Rearranged(mServers, old(mServers), order) && SortedByName(mServers)
      ensures forall i | 0 <= i < |mServers| :: mServers[i].mId == i
    {
      mServers, order := SortByName(mServers);
      RearrangedUnique(mServers, old(mServers), order);
      AssignIds();
    }

    method ReadServers(servers: seq<ServerJson>, lists: array<seq<Protocol>>) returns (ghost added: seq<AServer>)
      requires Unique(mServers)
      requires lists.Length == ENCRYPTION_COUNT && forall e | 0 <= e < ENCRYPTION_COUNT :: lists[e] == []
      modifies this`mServers, lists
      ensures |added| == |servers| && mServers == old(mServers) + added && Unique(mServers)
      ensures forall k | 0 <= k < |added| :: fresh(added[k]) && added[k].Holds(servers[k]) && added[k].mPing == -1
      ensures forall e | 0 <= e < ENCRYPTION_COUNT :: lists[e] == Published(servers, e)
    {
      added := [];
      for k := 0 to |servers|
        invariant |added| == k && mServers == old(mServers) + added && Unique(mServers)
        invariant forall j | 0 <= j < k :: fresh(added[j]) && added[j].Holds(servers[j]) && added[j].mPing == -1
        invariant forall e | 0 <= e < ENCRYPTION_COUNT :: lists[e] == Published(servers[..k], e)
      {
        var newServer := ReadServer(servers[k], lists);
        assert servers[..k + 1][..k] == servers[..k];
        mServers := mServers + [newServer];
        added := added + [newServer];
      }
      assert servers[..|servers|] == servers;
    }

    method AssignIds()
      requires Unique(mServers)
      modifies mServers`mId
      ensures forall i | 0 <= i < |mServers| :: mServers[i].mId == i
    {
      for id := 0 to |mServers|
        invariant forall i | 0 <= i < id :: mServers[i].mId == i
      {
        mServers[id].mId := id;
      }
    }

    method PublishPorts(lists: seq<seq<Protocol>>, ghost servers: seq<ServerJson>)
      requires |lists| == ENCRYPTION_COUNT
      requires forall e | 0 <= e < ENCRYPTION_COUNT :: lists[e] == Published(servers, e)
      modifies setting`mPortsByEncryption, setting`mPortumbersByEncryption
      ensures Publishes(setting, servers)
    {
      for encryption := 0 to ENCRYPTION_COUNT
        invariant forall e | 0 <= e < encryption :: Shows(setting, e, lists[e])
      {
        var portNameList, portNumberList := PortLists(lists[encryption]);
        setting.SetEncryptionPorts(encryption, portNameList, portNumberList);
      }
    }

    /** The positions of the servers that support an encryption, in increasing order. */
    method ServersForEncryption(encryption: int) returns (ids: seq<int>)
      ensures forall id :: id in ids <==> 0 <= id < |mServers| && mServers[id].SupportsEncryption(encryption)
      ensures forall i, j | 0 <= i < j < |ids| :: ids[i] < ids[j]
    {
      ids := [];
      for i := 0 to |mServers|
        invariant forall id :: id in ids <==> 0 <= id < i && mServers[id].SupportsEncryption(encryption)
        invariant forall k, j | 0 <= k < j < |ids| :: ids[k] < ids[j]
        invariant forall k | 0 <= k < |ids| :: ids[k] < i
      {
        if mServers[i].SupportsEncryption(encryption) {
          ids := ids + [i];
        }
      }
    }
  }

  lemma RearrangedUnique<T>(r: seq<T>, s: seq<T>, order: seq<nat>)
    requires Rearranged(r, s, order) && Unique(s)
    ensures Unique(r)
    ensures forall x :: x in r <==> x in s
  {
    forall i, j | 0 <= i < j < |r| ensures r[i] != r[j] {
      assert order[i] != order[j];
    }
    forall x ensures x in r <==> x in s {
      if x in s {
        var k :| 0 <= k < |s| && s[k] == x;
        assert k in order;
        var i :| 0 <= i < |order| && order[i] == k;
        assert r[i] == x;
      }
      if x in r {
        var i :| 0 <= i < |r| && r[i] == x;
        assert s[order[i]] == x;
      }
    }
  }

  // ----- what the readers of the list get

  /** Every port a server offers is shown at exactly one index. */
  lemma ShownOnce(setting: Setting, servers: seq<ServerJson>, k: nat, e: int, p: Protocol) returns (i: nat)
    requires Publishes(setting, servers) && 0 <= e < ENCRYPTION_COUNT
    requires k < |servers| && p in Offered(servers[k], e)
    ensures var names := setting.PortsForEncryption(e);
            i < |names| && forall j | 0 <= j < |names| :: names[j] == DisplayName(p) <==> j == i
  {
    assert Shows(setting, e, Published(servers, e));
    var list := Published(servers, e);
    PublishedOnce(servers, e);
    assert Offers(servers, e, p);
    i :| 0 <= i < |list| && list[i] == p;
    forall j | 0 <= j < |list| ensures Names(list)[j] == DisplayName(p) <==> j == i {
      NamesDiffer(list[j], p);
    }
  }

  /** What is sent to the service for the i-th entry is the port it was printed from. */
  lemma SentAsShown(setting: Setting, servers: seq<ServerJson>, e: int, i: int)
    requires Publishes(setting, servers) && 0 <= e < ENCRYPTION_COUNT
    ensures var list := Published(servers, e);
            if 0 <= i < |list| then
              && setting.PortsForEncryption(e)[i] == DisplayName(list[i])
              && ToInt(setting.PortNumber(e, i)) == list[i].port
              && setting.TcpOrUdp(e, i) == Some(if list[i].tcp then "tcp" else "udp")
            else setting.PortNumber(e, i) == "80" && setting.TcpOrUdp(e, i) == None
  {
    assert Shows(setting, e, Published(servers, e));
    var list := Published(servers, e);
    if 0 <= i < |list| {
      NameReadsBack(list[i]);
      NumberReadsBack(list[i].port);
    } else {
      Eighty();
    }
  }

  lemma Eighty()
    ensures Number(80) == "80"
  {
    assert Digits(8) == "8";
  }

  lemma InProtocols(tcp: bool, ports: seq<int32>, p: Protocol)
    ensures p in Protocols(tcp, ports) <==> p.tcp == tcp && p.port in ports
  {
    if p.tcp == tcp && p.port in ports {
      var i :| 0 <= i < |ports| && ports[i] == p.port;
      assert Protocols(tcp, ports)[i] == p;
    }
  }

  lemma InOffered(s: ServerJson, e: int, p: Protocol)
    ensures p in Offered(s, e) <==> p.port in PortsOf(if p.tcp then s.tcp else s.udp, e)
  {
    InProtocols(true, PortsOf(s.tcp, e), p);
    InProtocols(false, PortsOf(s.udp, e), p);
  }

  /** The names under which the server list keeps the ports of an encryption. */
  predicate IsListName(e: int, name: string) {
    || (e == 0 && name == "plain")
    || (e == 1 && name == "obfs2")
    || (e == 2 && name == "obfs3")
    || (e == 3 && name == "scramblesuit")
    || (e == 4 && name == "ecc")
    || (e == 5 && name == "xor")
  }

  /** A port is offered for an encryption exactly when it stands in the list of that name. */
  lemma OfferedUnderName(s: ServerJson, e: int, p: Protocol)
    ensures p in Offered(s, e) <==>
            exists name :: IsListName(e, name)
              && var lists := if p.tcp then s.tcp else s.udp; name in lists && p.port in lists[name]
  {
    InOffered(s, e, p);
    if 0 <= e < ENCRYPTION_COUNT {
      assert IsListName(e, TYPES[e]);
    }
  }

  /** The i-th entry is enabled for a server exactly when that server offers the i-th port.
      For an encryption that does not exist the list of encryption 0 is shown, and nothing in
      it is enabled. */
  lemma SupportedExactly(s: AServer, json: ServerJson, setting: Setting, servers: seq<ServerJson>, e: int, i: nat)
    requires s.Holds(json) && Publishes(setting, servers)
    requires i < |setting.PortsForEncryption(e)|
    ensures var shown := Published(servers, if 0 <= e < ENCRYPTION_COUNT then e else 0);
            && i < |shown|
            && (Supports(s.mTCPPorts, s.mUDPPorts, e, setting.PortsForEncryption(e)[i]) <==> shown[i] in Offered(json, e))
  {
    var shown := if 0 <= e < ENCRYPTION_COUNT then e else 0;
    assert Shows(setting, shown, Published(servers, shown));
    var p := Published(servers, shown)[i];
    NameReadsBack(p);
    InOffered(json, e, p);
  }

  /** A server supports an encryption exactly when it offers a port for it. */
  lemma SupportsSome(s: AServer, json: ServerJson, e: int)
    requires s.Holds(json)
    ensures s.SupportsEncryption(e) <==> Offered(json, e) != []
  {}

  /** The list of hubs goes through the same settings, so it takes the place of the list of
      the servers: a port can then be chosen if and only if some hub offers it. So every port
      that a server offers can be chosen if and only if the hubs offer all of them. */
  lemma HubsReplacePorts(setting: Setting, hubs: seq<ServerJson>, servers: seq<ServerJson>, e: int)
    requires Publishes(setting, hubs) && 0 <= e < ENCRYPTION_COUNT
    ensures forall p :: DisplayName(p) in setting.PortsForEncryption(e) <==> Offers(hubs, e, p)
    ensures (forall p | Offers(servers, e, p) :: DisplayName(p) in setting.PortsForEncryption(e))
            <==> (forall p | Offers(servers, e, p) :: Offers(hubs, e, p))
  {
    PublishedOnce(hubs, e);
    assert Shows(setting, e, Published(hubs, e));
    forall p ensures DisplayName(p) in setting.PortsForEncryption(e) <==> Offers(hubs, e, p) {
      var list := Published(hubs, e);
      if p in list {
        var i :| 0 <= i < |list| && list[i] == p;
        assert Names(list)[i] == DisplayName(p);
      }
      if DisplayName(p) in Names(list) {
        var i :| 0 <= i < |list| && Names(list)[i] == DisplayName(p);
        NamesDiffer(list[i], p);
      }
    }
  }
}
