/** The stored settings that the port list, the port loop and the jump use. */
module Settings {
  import opened Options
  import opened PortNames

  const ENCRYPTION_COUNT := 6

  function Get<K, V>(m: map<K, V>, k: K, otherwise: V): V {
    if k in m then m[k] else otherwise
  }

  /** The first index of x, or -1. */
  function IndexIn(x: int, ids: seq<int>): (i: int)
    ensures -1 <= i < |ids|
    ensures if x in ids then i >= 0 && ids[i] == x && x !in ids[..i] else i == -1
  {
    if x !in ids then -1
    else if ids[0] == x then 0
    else
      assert x in ids[1..];
      var i := IndexIn(x, ids[1..]);
      assert ids[..i + 1] == [ids[0]] + ids[1..][..i];
      i + 1
  }

  class Setting {
    var storedEncryption: int
    var protocolIx: map<int, int>                   // dd_Protocol_ix, per encryption
    var locationIx: map<int, int>                   // dd_Location_ix, per encryption
    var showNodes: bool
    var serverEncryptions: map<string, int>         // overrides, per server address
    var serverProtocols: map<(string, int), int>    // overrides, per address and encryption
    var mPortsByEncryption: map<int, seq<string>>
    var mPortumbersByEncryption: map<int, seq<int32>>

    /** Nothing is stored yet: every value read is the first of its list. */
    constructor ()
      ensures Encryption() == 0 && CurrentProtocol() == 0 && ServerID() == 0 && !showNodes
      ensures serverEncryptions == map[] && serverProtocols == map[]
    {
      storedEncryption, showNodes := 0, false;
      protocolIx, locationIx, serverEncryptions, serverProtocols := map[], map[], map[], map[];
      mPortsByEncryption, mPortumbersByEncryption := map[], map[];
    }

    function Encryption(): (e: int)
      reads this
      ensures 0 <= storedEncryption < 6 ==> e == storedEncryption
      ensures storedEncryption < 0 || storedEncryption > 5 ==> e == 0
    {
      if storedEncryption < 0 || storedEncryption >= ENCRYPTION_COUNT then 0 else storedEncryption
    }

    function CurrentProtocol(): int reads this { Get(protocolIx, Encryption(), 0) }

    function ServerID(): int reads this { Get(locationIx, Encryption(), 0) }

    function ServerEncryption(address: string): int reads this {
      Get(serverEncryptions, address, Encryption())
    }

    function ServerProtocol(address: string, encryption: int): int reads this {
      Get(serverProtocols, (address, encryption), CurrentProtocol())
    }

    function PortsForEncryption(encryption: int): seq<string> reads this {
      Get(mPortsByEncryption, if 0 <= encryption < ENCRYPTION_COUNT then encryption else 0, [])
    }

    /** 80 for a protocol that is not in the list. */
    function PortNumber(encryption: int, protocol: int): string reads this {
      var portnumbers := Get(mPortumbersByEncryption, encryption, []);
      Number(if -1 < protocol < |portnumbers| then portnumbers[protocol] else 80)
    }

    /** None stands for the failing bounds check of QList::at. */
    function TcpOrUdp(encryption: int, protocol: int): Option<string> reads this {
      var names := Get(mPortsByEncryption, encryption, []);
      if 0 <= protocol < |names| then Some(if ContainsUdp(names[protocol]) then "udp" else "tcp") else None
    }

    method SetEncryptionPorts(encryption: int, ports: seq<string>, portNumbers: seq<int32>)
      modifies this`mPortsByEncryption, this`mPortumbersByEncryption
      ensures mPortsByEncryption == old(mPortsByEncryption)[encryption := ports]
      ensures mPortumbersByEncryption == old(mPortumbersByEncryption)[encryption := portNumbers]
    {
      mPortsByEncryption := mPortsByEncryption[encryption := ports];
      mPortumbersByEncryption := mPortumbersByEncryption[encryption := portNumbers];
    }

    method SetDefaultPort(ix: int)
      modifies this`protocolIx
      ensures protocolIx == old(protocolIx)[Encryption() := ix]
    {
      protocolIx := protocolIx[Encryption() := ix];
    }

    method DetermineNextPort() returns (ix: int)
      ensures ix == NextPort(CurrentProtocol(), |Get(mPortumbersByEncryption, Encryption(), [])|)
    {
      ix := CurrentProtocol();
      ix := ix + 1;
      var portnumbers := Get(mPortumbersByEncryption, Encryption(), []);
      if ix >= |portnumbers| {
        ix := 0;
      }
    }

    method SwitchToNextPort()
      modifies this`protocolIx
      ensures CurrentProtocol() == NextPort(old(CurrentProtocol()), |Get(mPortumbersByEncryption, Encryption(), [])|)
      ensures forall e | e != Encryption() :: e in protocolIx <==> e in old(protocolIx)
      ensures forall e | e != Encryption() && e in protocolIx :: protocolIx[e] == old(protocolIx)[e]
    {
      var ix := DetermineNextPort();
      SetDefaultPort(ix);
    }

    /** count is the number of servers: an index that is not one of a server is ignored. */
    method SetServer(ixsrv: int, count: nat)
      modifies this`locationIx
      ensures locationIx == if 0 <= ixsrv < count then old(locationIx)[Encryption() := ixsrv] else old(locationIx)
    {
      if 0 <= ixsrv < count {
        locationIx := locationIx[Encryption() := ixsrv];
      }
    }

    method SwitchToNextNode(ids: seq<int>, count: nat)
      requires forall id | id in ids :: 0 <= id < count
      modifies this`locationIx
      ensures ServerID() == NextNode(old(ServerID()), ids)
      ensures forall e | e != Encryption() :: e in locationIx <==> e in old(locationIx)
      ensures forall e | e != Encryption() && e in locationIx :: locationIx[e] == old(locationIx)[e]
    {
      var ix := ServerID();
      var which := IndexIn(ix, ids);
      if which != -1 && which + 1 < |ids| {
        SetServer(ids[which + 1], count);
      }
    }
  }

  /** The port index after this one, in a list of n ports. */
  function NextPort(ix: int, n: nat): int {
    if ix + 1 >= n then 0 else ix + 1
  }

  /** The server behind this one in the list: the last one, and one that is not in the list,
      stay. */
  function NextNode(id: int, ids: seq<int>): (next: int)
    ensures next == id || next in ids
  {
    var which := IndexIn(id, ids);
    if which != -1 && which + 1 < |ids| then ids[which + 1] else id
  }
}
