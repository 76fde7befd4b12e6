/** The retry loop after a failed connection: VPNServiceManager walks the ports, or the
    servers, one per timeout, until the service reports that it is connected. */
module PortLoop {
  import opened Options
  import opened Settings

  datatype VpnState = Disconnected | Connecting | Connected | Disconnecting

  /** What the loop needs to know of a server or a hub. */
  datatype Endpoint = Endpoint(address: string, ip: string)

  /** What does not change while the loop runs: the number of ports of the current
      encryption, the indices of the servers that support it, whether servers or hubs are
      shown, the two lists, and what is set for a server alone. */
  datatype Env = Env(
    encryption: int,
    ports: nat,
    servers: seq<int>,
    showNodes: bool,
    nodes: seq<Endpoint>,
    hubs: seq<Endpoint>,
    serverEncryptions: map<string, int>,
    serverProtocols: map<(string, int), int>)

  datatype State = State(inPortLoop: bool, dialogShown: bool, changingPorts: bool, protocol: int, server: int)

  datatype Event =
    | StatusChange(state: VpnState)
    | Timeout
    | PortDialogResult(cyclePorts: bool)

  /** Request is a connect command: where to, the encryption, and the port index in the list
      of that encryption. NullServer stands for the null pointer that getServer returns for
      an index without a server, which is dereferenced: that ends the program. */
  datatype Output = Nothing | TimedOut | Request(ip: string, encryption: int, protocol: int) | NullServer

  function TryNext(env: Env, s: State): State {
    if s.changingPorts then s.(protocol := NextPort(s.protocol, env.ports))
    else s.(server := NextNode(s.server, env.servers))
  }

  /** The request for this endpoint with what is set for a server: that goes before the
      current encryption and port index. */
  function RequestFor(env: Env, to: Endpoint, server: Endpoint, protocol: int): Output {
    var encryption := Get(env.serverEncryptions, server.address, env.encryption);
    Request(to.ip, encryption, Get(env.serverProtocols, (server.address, encryption), protocol))
  }

  /** The connect command for an index: the settings of the server, sent to the server or to
      the hub. */
  function Connect(env: Env, server: int, protocol: int): Output {
    var list := if env.showNodes then env.nodes else env.hubs;
    if 0 <= server < |env.nodes| && server < |list| then RequestFor(env, list[server], env.nodes[server], protocol)
    else NullServer
  }

  function After(env: Env, s: State, e: Event): State {
    match e
    case StatusChange(state) => if state == Connected then s.(inPortLoop := false) else s
    case Timeout => if s.inPortLoop then TryNext(env, s) else s.(dialogShown := true)
    case PortDialogResult(cycle) =>
      TryNext(env, s.(changingPorts := cycle, dialogShown := false, inPortLoop := true))
  }

  function Emits(env: Env, s: State, e: Event): Output {
    match e
    case StatusChange(_) => Nothing
    case Timeout =>
      if s.inPortLoop then Connect(env, TryNext(env, s).server, TryNext(env, s).protocol)
      else if s.dialogShown then Nothing
      else TimedOut
    case PortDialogResult(_) => Connect(env, After(env, s, e).server, After(env, s, e).protocol)
  }

  /** The state after a run of events. */
  function Run(env: Env, s: State, es: seq<Event>): State {
    if es == [] then s else After(env, Run(env, s, es[..|es| - 1]), es[|es| - 1])
  }

  /** What the event at i emits. */
  function OutputAt(env: Env, s: State, es: seq<Event>, i: nat): Output
    requires i < |es|
  {
    Emits(env, Run(env, s, es[..i]), es[i])
  }

  // ----- the object

  class VPNServiceManager {
    const setting: Setting
    const nodes: seq<Endpoint>              // the servers
    const hubs: seq<Endpoint>
    const servers: seq<int>                 // currentEncryptionServers()
    var mState: VpnState
    var mInPortLoop: bool
    var mPortDialogShown: bool
    var mChangingPorts: bool
    var emitted: seq<Output>

    constructor (setting: Setting, nodes: seq<Endpoint>, hubs: seq<Endpoint>, servers: seq<int>)
      ensures this.setting == setting && this.nodes == nodes && this.hubs == hubs && this.servers == servers
      ensures !mInPortLoop && !mPortDialogShown && emitted == []
    {
      this.setting, this.nodes, this.hubs, this.servers := setting, nodes, hubs, servers;
      mState, mInPortLoop, mPortDialogShown, emitted := Disconnected, false, false, [];
    }

    ghost predicate Valid() reads this, setting {
      forall id | id in servers :: 0 <= id < |nodes|
    }

    ghost function CurrentEnv(): Env reads this, setting {
      Env(setting.Encryption(), |Get(setting.mPortumbersByEncryption, setting.Encryption(), [])|, servers,
          setting.showNodes, nodes, hubs, setting.serverEncryptions, setting.serverProtocols)
    }

    /** Setting::serverAddress(), for an index that is not negative. */
    method ServerAddress(ix: nat) returns (s: Option<string>)
      ensures var list := if setting.showNodes then nodes else hubs;
              s == if ix < |list| then Some(list[ix].ip) else None
    {
      if setting.showNodes {
        s := if ix < |nodes| then Some(nodes[ix].ip) else None;
      } else {
        s := if ix < |hubs| then Some(hubs[ix].ip) else None;
      }
    }

    ghost function Now(): State reads this, setting {
      State(mInPortLoop, mPortDialogShown, mChangingPorts, setting.CurrentProtocol(), setting.ServerID())
    }

    method SendConnectToVPNRequest()
      modifies this`emitted
      ensures emitted == old(emitted) + [Connect(CurrentEnv(), setting.ServerID(), setting.CurrentProtocol())]
      ensures var id := setting.ServerID(); var list := if setting.showNodes then nodes else hubs;
              if 0 <= id < |nodes| && id < |list| then
                var o, address := emitted[|emitted| - 1], nodes[id].address;
                && o.Request? && o.ip == list[id].ip
                && (address !in setting.serverEncryptions ==> o.encryption == setting.Encryption())
                && (address in setting.serverEncryptions ==> o.encryption == setting.serverEncryptions[address])
                && ((address, o.encryption) !in setting.serverProtocols ==> o.protocol == setting.CurrentProtocol())
                && ((address, o.encryption) in setting.serverProtocols ==>
                      o.protocol == setting.serverProtocols[(address, o.encryption)])
              else emitted[|emitted| - 1] == NullServer
    {
      var id := setting.ServerID();
      if !(0 <= id < |nodes|) {
        emitted := emitted + [NullServer];
        return;
      }
      var currentServerAddress := nodes[id].address;
      var encryption := setting.ServerEncryption(currentServerAddress);
      var protocol := setting.ServerProtocol(currentServerAddress, encryption);
      var server := ServerAddress(id);
      emitted := emitted + [if server.None? then NullServer else Request(server.value, encryption, protocol)];
    }

    method TryNextPort()
      requires Valid()
      modifies this`emitted, setting`protocolIx, setting`locationIx
      ensures Valid() && CurrentEnv() == old(CurrentEnv())
      ensures Now() == TryNext(CurrentEnv(), old(Now()))
      ensures emitted == old(emitted) + [Connect(CurrentEnv(), setting.ServerID(), setting.CurrentProtocol())]
    {
      if mChangingPorts {
        setting.SwitchToNextPort();
      } else {
        setting.SwitchToNextNode(servers, |nodes|);
      }
      SendConnectToVPNRequest();
    }

    method NotifyStatusChange(state: VpnState)
      requires Valid()
      modifies this`mState, this`mInPortLoop
      ensures Valid() && CurrentEnv() == old(CurrentEnv())
      ensures Now() == After(CurrentEnv(), old(Now()), StatusChange(state)) && mState == state
    {
      mState := state;
      if mState == Connected {
        mInPortLoop := false;
      }
    }

    method NotifyTimeout()
      requires Valid()
      modifies this`emitted, this`mPortDialogShown, setting`protocolIx, setting`locationIx
      ensures Valid() && CurrentEnv() == old(CurrentEnv())
      ensures Now() == After(CurrentEnv(), old(Now()), Timeout)
      ensures var o := Emits(CurrentEnv(), old(Now()), Timeout);
              emitted == old(emitted) + if o == Nothing then [] else [o]
    {
      if mInPortLoop {
        TryNextPort();
      } else if mPortDialogShown {
        // the dialog is still open
      } else {
        mPortDialogShown := true;
        emitted := emitted + [TimedOut];
      }
    }

    method StartPortLoop(changePort: bool)
      requires Valid()
      modifies this`emitted, this`mPortDialogShown, this`mInPortLoop, this`mChangingPorts
      modifies setting`protocolIx, setting`locationIx
      ensures Valid() && CurrentEnv() == old(CurrentEnv())
      ensures Now() == After(CurrentEnv(), old(Now()), PortDialogResult(changePort))
      ensures emitted == old(emitted) + [Emits(CurrentEnv(), old(Now()), PortDialogResult(changePort))]
    {
      mChangingPorts := changePort;
      mPortDialogShown := false;
      mInPortLoop := true;
      TryNextPort();
    }
  }

  // ----- walking the ports

  /** The port index of the k-th request. */
  function PortOf(ix: int, n: nat, k: nat): int {
    if k == 0 then NextPort(ix, n) else NextPort(PortOf(ix, n, k - 1), n)
  }

  lemma {:induction false} PortInRange(ix: int, n: nat, k: nat)
    requires n > 0 && ix >= -1
    ensures 0 <= PortOf(ix, n, k) < n
  {
    if k > 0 {
      PortInRange(ix, n, k - 1);
    }
  }

  lemma {:induction false} Window(ix: int, n: nat, from: nat, d: nat)
    requires n > 0 && ix >= -1 && d < n
    ensures var a := PortOf(ix, n, from); PortOf(ix, n, from + d) == if a + d < n then a + d else a + d - n
  {
    PortInRange(ix, n, from);
    if d > 0 {
      Window(ix, n, from, d - 1);
    }
  }

  /** The port p is asked for by exactly one of the n requests from the given one on. */
  ghost predicate AskedOnce(ix: int, n: nat, from: nat, p: int) {
    exists k | from <= k < from + n ::
      PortOf(ix, n, k) == p && forall j | from <= j < from + n && j != k :: PortOf(ix, n, j) != p
  }

  /** Any n requests in a row ask for each of the n ports exactly once, if and only if the
      index to start from is at least -1. */
  lemma EachPortOnce(ix: int, n: nat)
    requires n > 0
    ensures (forall from: nat, p | 0 <= p < n :: AskedOnce(ix, n, from, p)) <==> ix >= -1
  {
    if ix >= -1 {
      forall from: nat, p | 0 <= p < n ensures AskedOnce(ix, n, from, p) {
        InWindow(ix, n, from, p);
      }
    } else {
      forall k | 0 <= k < 0 + n ensures PortOf(ix, n, k) != n - 1 {
        NegativeStart(ix, n, k);
      }
      assert !AskedOnce(ix, n, 0, n - 1);
    }
  }

  lemma {:induction false} NegativeStart(ix: int, n: nat, k: nat)
    requires ix < -1 && k < n
    ensures PortOf(ix, n, k) == ix + 1 + k
  {
    if k > 0 {
      NegativeStart(ix, n, k - 1);
    }
  }

  lemma InWindow(ix: int, n: nat, from: nat, p: nat)
    requires n > 0 && ix >= -1 && p < n
    ensures AskedOnce(ix, n, from, p)
  {
    PortInRange(ix, n, from);
    var a := PortOf(ix, n, from);
    var k := from + if p >= a then p - a else p - a + n;
    Window(ix, n, from, k - from);
    forall j | from <= j < from + n && j != k ensures PortOf(ix, n, j) != p {
      Window(ix, n, from, j - from);
    }
  }

  /** The server of the k-th request. */
  function NodeOf(id: int, ids: seq<int>, k: nat): int {
    if k == 0 then NextNode(id, ids) else NextNode(NodeOf(id, ids, k - 1), ids)
  }

  lemma NextNodeAt(ids: seq<int>, w: nat)
    requires (forall i, j | 0 <= i < j < |ids| :: ids[i] != ids[j]) && w < |ids|
    ensures NextNode(ids[w], ids) == ids[if w + 1 < |ids| then w + 1 else w]
  {
    assert ids[w] in ids;
    assert IndexIn(ids[w], ids) == w;
  }

  /** Walking the servers does not wrap: behind the last server of the list every request is
      for that server again, and a server that is not in the list is requested forever. */
  lemma {:induction false} NodesInOrder(id: int, ids: seq<int>, k: nat)
    requires forall i, j | 0 <= i < j < |ids| :: ids[i] != ids[j]
    ensures id !in ids ==> NodeOf(id, ids, k) == id
    ensures forall w | 0 <= w < |ids| && ids[w] == id ::
              NodeOf(id, ids, k) == ids[if w + 1 + k < |ids| then w + 1 + k else |ids| - 1]
  {
    if k > 0 {
      NodesInOrder(id, ids, k - 1);
    }
    forall w | 0 <= w < |ids| && ids[w] == id
      ensures NodeOf(id, ids, k) == ids[if w + 1 + k < |ids| then w + 1 + k else |ids| - 1]
    {
      NextNodeAt(ids, if k == 0 then w else if w + k < |ids| then w + k else |ids| - 1);
    }
  }

  /** Events that keep a loop going. */
  predicate Keeps(es: seq<Event>) {
    forall e | e in es :: e != StatusChange(Connected) && !e.PortDialogResult?
  }

  function Timeouts(es: seq<Event>): nat {
    if es == [] then 0 else Timeouts(es[..|es| - 1]) + if es[|es| - 1] == Timeout then 1 else 0
  }

  lemma RunNext(env: Env, s: State, es: seq<Event>, e: Event)
    ensures Run(env, s, es + [e]) == After(env, Run(env, s, es), e)
  {
    assert (es + [e])[..|es|] == es;
  }

  /** The state in a loop that was started in s, after k timeouts. */
  predicate InLoop(env: Env, s: State, cycle: bool, k: nat, t: State) {
    && t.inPortLoop && t.changingPorts == cycle
    && t.server == (if cycle then s.server else NodeOf(s.server, env.servers, k))
    && t.protocol == (if cycle then PortOf(s.protocol, env.ports, k) else s.protocol)
  }

  lemma StaysInLoop(env: Env, s: State, cycle: bool, k: nat, t: State, e: Event)
    requires InLoop(env, s, cycle, k, t) && Keeps([e])
    ensures InLoop(env, s, cycle, if e == Timeout then k + 1 else k, After(env, t, e))
  {
    assert e in [e];
  }

  lemma LoopBegins(env: Env, s: State, cycle: bool)
    ensures InLoop(env, s, cycle, 0, Run(env, s, [PortDialogResult(cycle)]))
  {
    RunNext(env, s, [], PortDialogResult(cycle));
    assert [] + [PortDialogResult(cycle)] == [PortDialogResult(cycle)];
  }

  lemma {:induction false} LoopState(env: Env, s: State, cycle: bool, es: seq<Event>)
    requires Keeps(es)
    ensures InLoop(env, s, cycle, Timeouts(es), Run(env, s, [PortDialogResult(cycle)] + es))
    decreases |es|
  {
    hide InLoop, Run, After;
    var start := [PortDialogResult(cycle)];
    if es == [] {
      LoopBegins(env, s, cycle);
      assert start + es == start;
    } else {
      var before, e := es[..|es| - 1], es[|es| - 1];
      LoopState(env, s, cycle, before);
      assert e in es;
      StaysInLoop(env, s, cycle, Timeouts(before), Run(env, s, start + before), e);
      assert start + es == (start + before) + [e];
      RunNext(env, s, start + before, e);
    }
  }

  /** The server and the port index after t timeouts of a loop. */
  function ServerAt(env: Env, s: State, cycle: bool, t: nat): int {
    if cycle then s.server else NodeOf(s.server, env.servers, t)
  }

  function PortAt(env: Env, s: State, cycle: bool, t: nat): int {
    if cycle then PortOf(s.protocol, env.ports, t) else s.protocol
  }

  /** The connect command after t timeouts of a loop. */
  function LoopRequest(env: Env, s: State, cycle: bool, t: nat): Output {
    Connect(env, ServerAt(env, s, cycle, t), PortAt(env, s, cycle, t))
  }

  /** From the moment the user asks for other ports (or servers), and until the service is
      connected, the request for the k-th timeout is made with the k-th port index of the
      cycle (or with the index of the k-th server of the list), whatever other status changes
      arrive in between and whatever went before; for a server that has a protocol of its own
      every port request asks for that one. */
  lemma PortLoopWalks(env: Env, s: State, cycle: bool, es: seq<Event>)
    requires Keeps(es)
    ensures var run := [PortDialogResult(cycle)] + es;
            && OutputAt(env, s, run, 0) == LoopRequest(env, s, cycle, 0)
            && forall i | 0 <= i < |es| :: OutputAt(env, s, run, i + 1) ==
                 if es[i] == Timeout then LoopRequest(env, s, cycle, Timeouts(es[..i + 1])) else Nothing
  {
    var run := [PortDialogResult(cycle)] + es;
    assert run[..0] == [] && run[0] == PortDialogResult(cycle);
    forall i | 0 <= i < |es|
      ensures OutputAt(env, s, run, i + 1) ==
              if es[i] == Timeout then LoopRequest(env, s, cycle, Timeouts(es[..i + 1])) else Nothing
    {
      assert run[..i + 1] == [PortDialogResult(cycle)] + es[..i] && run[i + 1] == es[i];
      assert es[..i + 1][..i] == es[..i] && es[i] in es;
      LoopState(env, s, cycle, es[..i]);
    }
  }

  /** The request that would go to the server with this index. */
  function Intended(env: Env, server: int, protocol: int): Output
    requires 0 <= server < |env.nodes|
  {
    RequestFor(env, env.nodes[server], env.nodes[server], protocol)
  }

  /** The two lists have the same machine at this index. */
  predicate Agree(env: Env, server: int) {
    0 <= server < |env.nodes| && server < |env.hubs| && env.hubs[server].ip == env.nodes[server].ip
  }

  predicate Sends(run: seq<Event>, i: nat)
    requires i < |run|
  {
    run[i].PortDialogResult? || run[i] == Timeout
  }

  /** The request that event i sends goes to the server, and asks for the port, that the
      settings then name. */
  predicate Reaches(env: Env, s: State, run: seq<Event>, i: nat)
    requires i < |run|
  {
    var now := Run(env, s, run[..i + 1]);
    0 <= now.server < |env.nodes| && OutputAt(env, s, run, i) == Intended(env, now.server, now.protocol)
  }

  ghost predicate InRange(env: Env, s: State) {
    0 <= s.server < |env.nodes| && forall id | id in env.servers :: 0 <= id < |env.nodes|
  }

  lemma {:induction false} NodeInRange(id: int, ids: seq<int>, k: nat, n: nat)
    requires 0 <= id < n && forall x | x in ids :: 0 <= x < n
    ensures 0 <= NodeOf(id, ids, k) < n
  {
    if k > 0 {
      NodeInRange(id, ids, k - 1, n);
    }
  }

  lemma ConnectReaches(env: Env, server: int, protocol: int)
    requires 0 <= server < |env.nodes|
    ensures Connect(env, server, protocol) == Intended(env, server, protocol) <==> env.showNodes || Agree(env, server)
    ensures Connect(env, server, protocol) == NullServer <==> !env.showNodes && server >= |env.hubs|
  {}

  /** One request of a loop, after t timeouts. */
  lemma RequestReachesServer(env: Env, s: State, cycle: bool, es: seq<Event>, i: nat)
    requires Keeps(es) && InRange(env, s) && i <= |es|
    ensures var run := [PortDialogResult(cycle)] + es;
            var server := ServerAt(env, s, cycle, Timeouts(es[..i]));
            Sends(run, i) ==>
              && (Reaches(env, s, run, i) <==> env.showNodes || Agree(env, server))
              && (OutputAt(env, s, run, i) == NullServer <==> !env.showNodes && server >= |env.hubs|)
  {
    var run, t := [PortDialogResult(cycle)] + es, Timeouts(es[..i]);
    assert run[..i + 1] == [PortDialogResult(cycle)] + es[..i];
    assert i > 0 ==> run[i] == es[i - 1] && es[i - 1] in es;
    assert es[..0] == [];
    LoopState(env, s, cycle, es[..i]);
    PortLoopWalks(env, s, cycle, es);
    NodeInRange(s.server, env.servers, t, |env.nodes|);
    ConnectReaches(env, ServerAt(env, s, cycle, t), PortAt(env, s, cycle, t));
    hide Connect, NodeOf, PortOf, Agree, Run, OutputAt, Intended;
  }

  /** Every number of timeouts up to the last is that of some request. */
  lemma {:induction false} RequestAfter(es: seq<Event>, t: nat) returns (i: nat)
    requires t <= Timeouts(es)
    ensures i <= |es| && Timeouts(es[..i]) == t && (i > 0 ==> es[i - 1] == Timeout)
    decreases |es|
  {
    var last: nat := |es| - if es == [] then 0 else 1;
    if t == 0 {
      i := 0;
    } else if t == Timeouts(es) && es[last] == Timeout {
      i := |es|;
      assert es[..i] == es;
    } else {
      i := RequestAfter(es[..last], t);
      assert es[..last][..i] == es[..i];
    }
  }

  lemma {:induction false} FewerTimeouts(es: seq<Event>, i: nat)
    requires i <= |es|
    ensures Timeouts(es[..i]) <= Timeouts(es)
    decreases |es|
  {
    if i < |es| {
      assert es[..|es| - 1][..i] == es[..i];
      FewerTimeouts(es[..|es| - 1], i);
    } else {
      assert es[..i] == es;
    }
  }

  lemma SomeRequestAfter(env: Env, s: State, cycle: bool, es: seq<Event>, t: nat) returns (i: nat)
    requires Keeps(es) && InRange(env, s) && t <= Timeouts(es)
    ensures var run := [PortDialogResult(cycle)] + es;
            var server := ServerAt(env, s, cycle, t);
            && i < |run| && Sends(run, i)
            && (Reaches(env, s, run, i) <==> env.showNodes || Agree(env, server))
            && (OutputAt(env, s, run, i) == NullServer <==> !env.showNodes && server >= |env.hubs|)
  {
    hide Reaches, OutputAt, Agree, ServerAt, InRange, Keeps, Timeouts;
    i := RequestAfter(es, t);
    var run := [PortDialogResult(cycle)] + es;
    assert i > 0 ==> run[i] == es[i - 1];
    RequestReachesServer(env, s, cycle, es, i);
  }

  /** Over a whole loop, however long and whatever status changes arrive in it: every request
      reaches the server whose turn it is if and only if servers are shown or the two lists
      agree at every index the loop visits. */
  lemma LoopReachesServers(env: Env, s: State, cycle: bool, es: seq<Event>)
    requires Keeps(es) && InRange(env, s)
    ensures var run := [PortDialogResult(cycle)] + es;
            (forall i | 0 <= i < |run| && Sends(run, i) :: Reaches(env, s, run, i)) <==>
            env.showNodes || forall t | 0 <= t <= Timeouts(es) :: Agree(env, ServerAt(env, s, cycle, t))
  {
    hide Reaches, OutputAt, Agree, ServerAt, InRange, Keeps, Sends, Timeouts;
    var run := [PortDialogResult(cycle)] + es;
    if forall i | 0 <= i < |run| && Sends(run, i) :: Reaches(env, s, run, i) {
      forall t | 0 <= t <= Timeouts(es) ensures env.showNodes || Agree(env, ServerAt(env, s, cycle, t)) {
        var i := SomeRequestAfter(env, s, cycle, es, t);
      }
    } else {
      var i :| 0 <= i < |run| && Sends(run, i) && !Reaches(env, s, run, i);
      FewerTimeouts(es, i);
      RequestReachesServer(env, s, cycle, es, i);
    }
  }

  /** A null pointer is dereferenced in it if and only if hubs are shown and there are too
      few for one of these indices. */
  lemma LoopMeetsNull(env: Env, s: State, cycle: bool, es: seq<Event>)
    requires Keeps(es) && InRange(env, s)
    ensures var run := [PortDialogResult(cycle)] + es;
            (exists i | 0 <= i < |run| && Sends(run, i) :: OutputAt(env, s, run, i) == NullServer) <==>
            !env.showNodes && exists t | 0 <= t <= Timeouts(es) :: ServerAt(env, s, cycle, t) >= |env.hubs|
  {
    hide Reaches, OutputAt, Agree, ServerAt, InRange, Keeps, Sends, Timeouts;
    var run := [PortDialogResult(cycle)] + es;
    if exists i | 0 <= i < |run| && Sends(run, i) :: OutputAt(env, s, run, i) == NullServer {
      var i :| 0 <= i < |run| && Sends(run, i) && OutputAt(env, s, run, i) == NullServer;
      FewerTimeouts(es, i);
      RequestReachesServer(env, s, cycle, es, i);
    } else {
      forall t | 0 <= t <= Timeouts(es) ensures env.showNodes || ServerAt(env, s, cycle, t) < |env.hubs| {
        var i := SomeRequestAfter(env, s, cycle, es, t);
      }
    }
  }

  /** Hence for the cycle through the ports the current server alone decides. */
  lemma PortLoopReachesServer(env: Env, s: State, es: seq<Event>)
    requires Keeps(es) && InRange(env, s)
    ensures var run := [PortDialogResult(true)] + es;
            (forall i | 0 <= i < |run| && Sends(run, i) :: Reaches(env, s, run, i)) <==> env.showNodes || Agree(env, s.server)
  {
    LoopReachesServers(env, s, true, es);
    assert ServerAt(env, s, true, 0) == s.server;
  }

  lemma ServersVisited(env: Env, s: State, w: nat, t: nat)
    requires forall i, j | 0 <= i < j < |env.servers| :: env.servers[i] != env.servers[j]
    requires w < |env.servers| && env.servers[w] == s.server
    ensures ServerAt(env, s, false, t) == env.servers[if w + 1 + t < |env.servers| then w + 1 + t else |env.servers| - 1]
  {
    NodesInOrder(s.server, env.servers, t);
  }

  /** And for the walk along the servers all those behind the current one, once there were
      timeouts enough to reach the last of them. */
  lemma ServerLoopReachesServers(env: Env, s: State, es: seq<Event>, w: nat)
    requires Keeps(es) && InRange(env, s)
    requires forall i, j | 0 <= i < j < |env.servers| :: env.servers[i] != env.servers[j]
    requires w < |env.servers| && env.servers[w] == s.server && w + 2 + Timeouts(es) >= |env.servers|
    ensures var run := [PortDialogResult(false)] + es;
            (forall i | 0 <= i < |run| && Sends(run, i) :: Reaches(env, s, run, i)) <==>
            env.showNodes || forall v | w < v < |env.servers| || v == |env.servers| - 1 :: Agree(env, env.servers[v])
  {
    hide Agree, Reaches, Sends, ServerAt, Keeps, InRange, Timeouts;
    var ids := env.servers;
    LoopReachesServers(env, s, false, es);
    if forall t | 0 <= t <= Timeouts(es) :: Agree(env, ServerAt(env, s, false, t)) {
      forall v | w < v < |ids| || v == |ids| - 1 ensures Agree(env, ids[v]) {
        var t: nat := if v > w then v - w - 1 else 0;
        ServersVisited(env, s, w, t);
        assert Agree(env, ServerAt(env, s, false, t));
      }
    } else {
      var t :| 0 <= t <= Timeouts(es) && !Agree(env, ServerAt(env, s, false, t));
      ServersVisited(env, s, w, t);
    }
  }

  // ----- what the requests ask for

  /** The k-th port index is that of the cycle from the stored one on, or from the first port
      if that is not in the list. */
  lemma {:induction false} PortInCycle(ix: int, n: nat, k: nat)
    requires n > 0 && ix >= -1
    ensures PortOf(ix, n, k) == ((if ix < n then ix + 1 else 0) + k) % n
  {
    var first := if ix < n then ix + 1 else 0;
    if k > 0 {
      PortInCycle(ix, n, k - 1);
      NextRemainder(first + k - 1, n);
    } else if ix + 1 == n {
      Remainder(n, n, 1, 0);
    } else {
      Remainder(first, n, 0, first);
    }
  }

  lemma NextRemainder(x: nat, n: nat)
    requires n > 0
    ensures (x + 1) % n == if x % n + 1 < n then x % n + 1 else 0
  {
    var q, r := x / n, x % n;
    assert x == n * q + r;
    if r + 1 < n {
      Remainder(x + 1, n, q, r + 1);
    } else {
      assert n * (q + 1) == n * q + n;
      Remainder(x + 1, n, q + 1, 0);
    }
  }

  lemma Remainder(x: nat, n: nat, q: nat, r: nat)
    requires x == n * q + r && r < n
    ensures x % n == r
  {
    QuotientFits(n, q, r, x / n, x % n);
  }

  lemma QuotientFits(n: nat, q: nat, r: nat, q': nat, r': nat)
    requires n * q + r == n * q' + r' && r < n && r' < n
    ensures r == r'
  {
    assert n * (q - q') == r' - r by {
      assert n * (q - q') == n * q - n * q';
    }
    if q > q' {
      AtLeast(n, q - q');
    } else if q < q' {
      assert n * (q' - q) == -(n * (q - q'));
      AtLeast(n, q' - q);
    }
  }

  lemma AtLeast(n: nat, k: nat)
    requires k >= 1
    ensures n * k >= n
  {
    assert n * k == n + n * (k - 1);
  }

  /** A request is possible at this index. */
  predicate HasTarget(env: Env, server: int) {
    0 <= server < |env.nodes| && (env.showNodes || server < |env.hubs|)
  }

  /** Every request of a loop carries the current encryption and the port index whose turn it
      is, unless something else is stored for the server: an encryption of its own takes the
      place of the current one, and a port index for the server and that encryption takes the
      place of the one whose turn it is. Nothing else enters it. */
  lemma RequestCarries(env: Env, s: State, cycle: bool, es: seq<Event>, i: nat)
    requires Keeps(es) && i <= |es| && Sends([PortDialogResult(cycle)] + es, i)
    requires HasTarget(env, ServerAt(env, s, cycle, Timeouts(es[..i])))
    ensures var t := Timeouts(es[..i]);
            var o, address := OutputAt(env, s, [PortDialogResult(cycle)] + es, i), env.nodes[ServerAt(env, s, cycle, t)].address;
            && o.Request?
            && o.ip == (if env.showNodes then env.nodes else env.hubs)[ServerAt(env, s, cycle, t)].ip
            && (address !in env.serverEncryptions ==> o.encryption == env.encryption)
            && (address in env.serverEncryptions ==> o.encryption == env.serverEncryptions[address])
            && ((address, o.encryption) !in env.serverProtocols ==> o.protocol == PortAt(env, s, cycle, t))
            && ((address, o.encryption) in env.serverProtocols ==> o.protocol == env.serverProtocols[(address, o.encryption)])
  {
    assert i > 0 ==> ([PortDialogResult(cycle)] + es)[i] == es[i - 1];
    assert es[..0] == [];
    hide OutputAt, ServerAt, PortAt, Timeouts, Keeps;
    PortLoopWalks(env, s, cycle, es);
  }

  /** The server has no settings of its own for the current encryption. */
  predicate NoOverride(env: Env, server: int)
    requires 0 <= server < |env.nodes|
  {
    var address := env.nodes[server].address;
    address !in env.serverEncryptions && (address, env.encryption) !in env.serverProtocols
  }

  /** Event i sends a request after at least from and fewer than to timeouts. */
  predicate SendsWithin(es: seq<Event>, cycle: bool, i: nat, from: nat, to: nat) {
    i <= |es| && Sends([PortDialogResult(cycle)] + es, i) && from <= Timeouts(es[..i]) < to
  }

  predicate AsksFor(env: Env, s: State, es: seq<Event>, i: nat, p: int)
    requires i <= |es|
  {
    var o := OutputAt(env, s, [PortDialogResult(true)] + es, i);
    o.Request? && o.encryption == env.encryption && o.protocol == p
  }

  lemma LaterRequest(es: seq<Event>, cycle: bool, i: nat, j: nat)
    requires i < j <= |es| && Sends([PortDialogResult(cycle)] + es, j) && Keeps(es)
    ensures Timeouts(es[..i]) < Timeouts(es[..j])
  {
    assert ([PortDialogResult(cycle)] + es)[j] == es[j - 1] && es[j - 1] in es;
    assert es[..j][..j - 1] == es[..j - 1] && es[..j - 1][..i] == es[..i];
    FewerTimeouts(es[..j - 1], i);
  }

  /** Request by request the cycle goes on from the port behind the stored one. */
  lemma AsksInTurn(env: Env, s: State, es: seq<Event>, i: nat)
    requires Keeps(es) && i <= |es| && Sends([PortDialogResult(true)] + es, i)
    requires HasTarget(env, s.server) && NoOverride(env, s.server) && env.ports > 0 && s.protocol >= -1
    ensures AsksFor(env, s, es, i, ((if s.protocol < env.ports then s.protocol + 1 else 0) + Timeouts(es[..i])) % env.ports)
  {
    RequestCarries(env, s, true, es, i);
    PortInCycle(s.protocol, env.ports, Timeouts(es[..i]));
  }

  /** For a server without settings of its own, any n requests in a row of a loop through n
      ports ask for each port index exactly once: exactly one of them asks for p. */
  lemma EachPortAskedOnce(env: Env, s: State, es: seq<Event>, from: nat, p: nat) returns (i: nat)
    requires Keeps(es) && HasTarget(env, s.server) && NoOverride(env, s.server)
    requires p < env.ports && s.protocol >= -1 && from + env.ports <= Timeouts(es) + 1
    ensures SendsWithin(es, true, i, from, from + env.ports) && AsksFor(env, s, es, i, p)
    ensures forall j: nat | SendsWithin(es, true, j, from, from + env.ports) && AsksFor(env, s, es, j, p) :: j == i
  {
    var run := [PortDialogResult(true)] + es;
    InWindow(s.protocol, env.ports, from, p);
    var k :| from <= k < from + env.ports && PortOf(s.protocol, env.ports, k) == p
             && forall j | from <= j < from + env.ports && j != k :: PortOf(s.protocol, env.ports, j) != p;
    i := RequestAfter(es, k);
    assert i > 0 ==> run[i] == es[i - 1];
    RequestCarries(env, s, true, es, i);
    hide Keeps, OutputAt, PortOf, Timeouts, Sends;
    forall j: nat | SendsWithin(es, true, j, from, from + env.ports) && AsksFor(env, s, es, j, p) ensures j == i {
      RequestCarries(env, s, true, es, j);
      if i < j { LaterRequest(es, true, i, j); }
      if j < i { LaterRequest(es, true, j, i); }
    }
  }

  // ----- the dialog

  predicate Asks(env: Env, s: State, es: seq<Event>, i: nat)
    requires i < |es|
  {
    OutputAt(env, s, es, i) == TimedOut
  }

  predicate Starts(es: seq<Event>, i: nat)
    requires i < |es|
  {
    es[i].PortDialogResult?
  }

  predicate Connects(es: seq<Event>, i: nat)
    requires i < |es|
  {
    es[i] == StatusChange(Connected)
  }

  /** Every loop started before n has reached a connection before n. */
  ghost predicate LoopsOver(es: seq<Event>, n: nat)
    requires n <= |es|
  {
    forall p | 0 <= p < n && Starts(es, p) :: exists q | p < q < n :: Connects(es, q)
  }

  /** Every dialog opened before n was answered before n. */
  ghost predicate DialogsAnswered(env: Env, s: State, es: seq<Event>, n: nat)
    requires n <= |es|
  {
    forall i | 0 <= i < n && Asks(env, s, es, i) :: exists p | i < p < n :: Starts(es, p)
  }

  lemma {:induction false} FlagsMean(env: Env, s: State, es: seq<Event>, n: nat)
    requires !s.inPortLoop && !s.dialogShown && n <= |es|
    ensures Run(env, s, es[..n]).inPortLoop <==> !LoopsOver(es, n)
    ensures !Run(env, s, es[..n]).inPortLoop ==> (Run(env, s, es[..n]).dialogShown <==> !DialogsAnswered(env, s, es, n))
    ensures Run(env, s, es[..n]).dialogShown <==> !DialogsAnswered(env, s, es, n)
    decreases n
  {
    if n == 0 {
      assert Run(env, s, []) == s;
    } else {
      var m := n - 1;
      FlagsMean(env, s, es, m);
      assert es[..n][..m] == es[..m];
      LoopsNext(es, m);
      DialogsNext(env, s, es, m);
    }
  }

  lemma LoopsNext(es: seq<Event>, m: nat)
    requires m < |es|
    ensures Connects(es, m) ==> LoopsOver(es, m + 1)
    ensures Starts(es, m) ==> !LoopsOver(es, m + 1)
    ensures !Connects(es, m) && !Starts(es, m) ==> (LoopsOver(es, m + 1) <==> LoopsOver(es, m))
  {
    if !Connects(es, m) && !Starts(es, m) && LoopsOver(es, m + 1) {
      forall p | 0 <= p < m && Starts(es, p) ensures exists q | p < q < m :: Connects(es, q) {
        var q :| p < q < m + 1 && Connects(es, q);
      }
    }
  }

  lemma DialogsNext(env: Env, s: State, es: seq<Event>, m: nat)
    requires m < |es|
    ensures Starts(es, m) ==> DialogsAnswered(env, s, es, m + 1)
    ensures Asks(env, s, es, m) ==> !DialogsAnswered(env, s, es, m + 1)
    ensures !Starts(es, m) && !Asks(env, s, es, m) ==>
              (DialogsAnswered(env, s, es, m + 1) <==> DialogsAnswered(env, s, es, m))
  {
    if !Starts(es, m) && !Asks(env, s, es, m) && DialogsAnswered(env, s, es, m + 1) {
      forall i | 0 <= i < m && Asks(env, s, es, i) ensures exists p | i < p < m :: Starts(es, p) {
        var p :| i < p < m + 1 && Starts(es, p);
      }
    }
  }

  /** The user is asked exactly when a timeout arrives, every loop started so far was ended
      by a connection, and every earlier question was answered. */
  lemma AsksExactly(env: Env, s: State, es: seq<Event>, j: nat)
    requires !s.inPortLoop && !s.dialogShown && j < |es|
    ensures Asks(env, s, es, j) <==> es[j] == Timeout && LoopsOver(es, j) && DialogsAnswered(env, s, es, j)
  {
    FlagsMean(env, s, es, j);
  }

  /** Between two questions there is an answer, and after the answer a connection. */
  lemma BetweenTwoQuestions(env: Env, s: State, es: seq<Event>, i: nat, j: nat)
    requires !s.inPortLoop && !s.dialogShown && i < j < |es|
    requires Asks(env, s, es, i) && Asks(env, s, es, j)
    ensures exists p, q | i < p < q < j :: Starts(es, p) && Connects(es, q)
  {
    AsksExactly(env, s, es, j);
    var p :| i < p < j && Starts(es, p);
    var q :| p < q < j && Connects(es, q);
  }
}
