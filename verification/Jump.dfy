/** Choosing the server to jump to: one of the candidates with the best known pings. */
module Jump {
  import opened Options
  import opened Settings
  import opened Sorting
  import opened Catalogue

  // a ping and the index it belongs to
  type IUPair = (int, int)

  predicate PCmp(a: IUPair, b: IUPair) {
    a.0 < b.0
  }

  predicate Distinct(pairs: seq<IUPair>) {
    forall i, j | 0 <= i < j < |pairs| :: pairs[i].1 != pairs[j].1
  }

  function Least(a: nat, b: nat): nat { if a < b then a else b }

  /** The ids of the first n pairs. */
  function FirstIds(pairs: seq<IUPair>, n: nat): (ids: set<int>)
    requires n <= |pairs|
    ensures |ids| <= n
    ensures forall j | 0 <= j < n :: pairs[j].1 in ids
  {
    if n == 0 then {} else FirstIds(pairs, n - 1) + {pairs[n - 1].1}
  }

  lemma {:induction false} FirstIdsAre(pairs: seq<IUPair>, n: nat)
    requires n <= |pairs| && Distinct(pairs)
    ensures |FirstIds(pairs, n)| == n
    ensures forall id | id in FirstIds(pairs, n) :: exists j | 0 <= j < n :: pairs[j].1 == id
  {
    if n > 0 {
      FirstIdsAre(pairs, n - 1);
    }
  }

  lemma SortedDistinct(pairs: seq<IUPair>, sorted: seq<IUPair>, order: seq<nat>)
    requires Distinct(pairs) && Rearranged(sorted, pairs, order)
    ensures Distinct(sorted)
    ensures forall j | 0 <= j < |sorted| :: sorted[j] in pairs
  {
    forall i, j | 0 <= i < j < |sorted| ensures sorted[i].1 != sorted[j].1 {
      assert order[i] != order[j];
    }
  }

  class AuthManager {
    const setting: Setting
    const mServersModel: ServersModel
    const mHubsModel: ServersModel

    constructor (setting: Setting, servers: ServersModel, hubs: ServersModel)
      ensures this.setting == setting && mServersModel == servers && mHubsModel == hubs
    {
      this.setting, mServersModel, mHubsModel := setting, servers, hubs;
    }

    /** The list that is jumped in: the servers, or the hubs. */
    function List(): seq<AServer>
      reads setting, mServersModel, mHubsModel
    {
      if setting.showNodes then mServersModel.mServers else mHubsModel.mServers
    }

    /** Where the user could go: not where he is, and only to a server with the current
        encryption. */
    predicate Candidate(id: int)
      reads setting, mServersModel, mHubsModel, mServersModel.mServers, mHubsModel.mServers
    {
      && 0 <= id < |List()|
      && id != setting.ServerID()
      && (setting.showNodes ==> List()[id].SupportsEncryption(setting.Encryption()))
    }

    /** Another server than the current one, with ports for the current encryption. */
    ghost predicate OtherServer(id: int)
      reads setting, mServersModel, mServersModel.mServers
    {
      && 0 <= id < |mServersModel.mServers| && id != setting.ServerID()
      && (setting.Encryption() in mServersModel.mServers[id].mTCPPorts
          || setting.Encryption() in mServersModel.mServers[id].mUDPPorts)
    }

    /** -1 for a ping that is not known. */
    function PingOf(id: int): int
      reads setting, mServersModel, mHubsModel, mServersModel.mServers, mHubsModel.mServers
    {
      if 0 <= id < |List()| then List()[id].mPing else -1
    }

    predicate Known(id: int)
      reads setting, mServersModel, mHubsModel, mServersModel.mServers, mHubsModel.mServers
    {
      Candidate(id) && PingOf(id) > -1
    }

    /** The candidates with a known ping below this one. */
    ghost function Better(ping: int): set<int>
      reads setting, mServersModel, mHubsModel, mServersModel.mServers, mHubsModel.mServers
    {
      set id | 0 <= id < |List()| && Known(id) && PingOf(id) < ping
    }

    ghost function KnownIds(): set<int>
      reads setting, mServersModel, mHubsModel, mServersModel.mServers, mHubsModel.mServers
    {
      set id | 0 <= id < |List()| && Known(id)
    }

    /** Sorted by ping, srv can stand at this place: not more candidates are better, and more
        than that are at least as good. */
    ghost predicate HasRank(srv: int, rank: int)
      reads setting, mServersModel, mHubsModel, mServersModel.mServers, mHubsModel.mServers
    {
      Known(srv) && |Better(PingOf(srv))| <= rank < |Better(PingOf(srv) + 1)|
    }

    function Top(): nat reads setting {
      if setting.showNodes then 20 else 6
    }

    method Candidates() returns (toping: seq<int>)
      ensures forall id :: id in toping <==> Candidate(id)
      ensures forall i, j | 0 <= i < j < |toping| :: toping[i] < toping[j]
    {
      toping := [];
      var prev := setting.ServerID();
      var enc := setting.Encryption();
      if setting.showNodes {
        var servers := mServersModel.ServersForEncryption(enc);
        for k := 0 to |servers|
          invariant forall id :: id in toping <==> id in servers[..k] && id != prev
          invariant forall i, j | 0 <= i < j < |toping| :: toping[i] < toping[j]
          invariant k < |servers| ==> forall i | 0 <= i < |toping| :: toping[i] < servers[k]
        {
          if servers[k] != prev {
            toping := toping + [servers[k]];
          }
        }
        assert servers[..|servers|] == servers;
      } else {
        for k := 0 to |mHubsModel.mServers|
          invariant forall id :: id in toping <==> 0 <= id < k && id != prev
          invariant forall i, j | 0 <= i < j < |toping| :: toping[i] < toping[j]
          invariant forall i | 0 <= i < |toping| :: toping[i] < k
        {
          if prev < 0 {
            toping := toping + [k];
          } else {
            if prev != k {
              toping := toping + [k];
            }
          }
        }
      }
    }

    method GetPings(toping: seq<int>) returns (v: seq<int>)
      requires forall id | id in toping :: 0 <= id
      ensures |v| == |toping|
      ensures forall k | 0 <= k < |v| :: v[k] == PingOf(toping[k])
    {
      v := seq(|toping|, _ => -1);
      for k := 0 to |toping|
        invariant |v| == |toping|
        invariant forall j | 0 <= j < k :: v[j] == PingOf(toping[j])
        invariant forall j | k <= j < |v| :: v[j] == -1
      {
        assert toping[k] in toping;
        if setting.showNodes {
          if toping[k] >= |mServersModel.mServers| {
          } else {
            v := v[k := mServersModel.mServers[toping[k]].mPing];
          }
        } else {
          if toping[k] >= |mHubsModel.mServers| {
          } else {
            v := v[k := mHubsModel.mServers[toping[k]].mPing];
          }
        }
      }
    }

    /** The pairs of the candidates whose ping is known. */
    method KnownPings(toping: seq<int>, pings: seq<int>) returns (ping_ix: seq<IUPair>)
      requires |pings| == |toping| && forall id :: id in toping <==> Candidate(id)
      requires forall k | 0 <= k < |pings| :: toping[k] in toping && pings[k] == PingOf(toping[k])
      requires forall i, j | 0 <= i < j < |toping| :: toping[i] < toping[j]
      ensures forall p :: p in ping_ix <==> Known(p.1) && p.0 == PingOf(p.1)
      ensures Distinct(ping_ix)
    {
      hide Candidate, PingOf;
      ping_ix := [];
      for k := 0 to |toping|
        invariant forall p :: p in ping_ix <==> p.1 in toping[..k] && PingOf(p.1) > -1 && p.0 == PingOf(p.1)
        invariant forall i, j | 0 <= i < j < |ping_ix| :: ping_ix[i].1 < ping_ix[j].1
        invariant k < |toping| ==> forall i | 0 <= i < |ping_ix| :: ping_ix[i].1 < toping[k]
      {
        if pings[k] > -1 {
          ping_ix := ping_ix + [(pings[k], toping[k])];
        }
      }
      assert toping[..|toping|] == toping;
    }

    /** Of the sorted pairs one of the first, as the draw says. */
    method PickBest(ping_ix: seq<IUPair>, rand: nat) returns (srv: int)
      requires ping_ix != [] && Distinct(ping_ix) && forall p :: p in ping_ix <==> Known(p.1) && p.0 == PingOf(p.1)
      ensures Known(srv) && |Better(PingOf(srv))| < Top()
      ensures |ping_ix| == |KnownIds()|
      ensures HasRank(srv, rand % Least(if setting.showNodes then 20 else 6, |KnownIds()|))
    {
      var sorted, order := Sort(ping_ix, PCmp);
      var num := if setting.showNodes then 20 else 6;
      if num >= |sorted| {
        num := |sorted|;
      }
      var offset := rand % num;
      srv := sorted[offset].1;
      assert sorted[offset] == ping_ix[order[offset]] && ping_ix[order[offset]] in ping_ix;
      FewBetter(ping_ix, sorted, order, offset);
      ManyAsGood(ping_ix, sorted, order, offset);
      AllKnown(ping_ix);
    }

    lemma AllKnown(ping_ix: seq<IUPair>)
      requires Distinct(ping_ix) && forall p :: p in ping_ix <==> Known(p.1) && p.0 == PingOf(p.1)
      ensures |ping_ix| == |KnownIds()|
    {
      var ids := FirstIds(ping_ix, |ping_ix|);
      FirstIdsAre(ping_ix, |ping_ix|);
      forall id ensures id in ids <==> id in KnownIds() {
        if id in KnownIds() {
          assert (PingOf(id), id) in ping_ix;
        }
        if id in ids {
          var j :| 0 <= j < |ping_ix| && ping_ix[j].1 == id;
          assert ping_ix[j] in ping_ix;
        }
      }
      assert ids == KnownIds();
    }

    /** Those up to the one drawn are all at least as good as it. */
    lemma ManyAsGood(ping_ix: seq<IUPair>, sorted: seq<IUPair>, order: seq<nat>, offset: nat)
      requires Distinct(ping_ix) && forall p :: p in ping_ix <==> Known(p.1) && p.0 == PingOf(p.1)
      requires Rearranged(sorted, ping_ix, order) && Sorted(sorted, PCmp) && offset < |sorted|
      ensures |Better(sorted[offset].0 + 1)| > offset
    {
      SortedDistinct(ping_ix, sorted, order);
      FirstIdsAre(sorted, offset + 1);
      hide Distinct, IsOrder, Better, Known, PingOf;
      var first := FirstIds(sorted, offset + 1);
      forall id | id in first ensures id in Better(sorted[offset].0 + 1) {
        var j :| 0 <= j < offset + 1 && sorted[j].1 == id;
        AsGood(ping_ix, sorted, offset, j);
      }
      SubsetSize(first, Better(sorted[offset].0 + 1));
    }

    lemma AsGood(ping_ix: seq<IUPair>, sorted: seq<IUPair>, offset: nat, j: nat)
      requires forall p :: p in ping_ix <==> Known(p.1) && p.0 == PingOf(p.1)
      requires Sorted(sorted, PCmp) && j <= offset < |sorted| && sorted[j] in ping_ix
      ensures sorted[j].1 in Better(sorted[offset].0 + 1)
    {
      assert j < offset ==> !PCmp(sorted[offset], sorted[j]);
      assert Known(sorted[j].1);
    }

    lemma FewBetter(ping_ix: seq<IUPair>, sorted: seq<IUPair>, order: seq<nat>, offset: nat)
      requires forall p :: p in ping_ix <==> Known(p.1) && p.0 == PingOf(p.1)
      requires Rearranged(sorted, ping_ix, order) && Sorted(sorted, PCmp) && offset < |sorted|
      ensures |Better(sorted[offset].0)| <= offset
    {
      var better, ids := Better(sorted[offset].0), FirstIds(sorted, offset);
      forall id | id in better ensures id in ids {
        var p := (PingOf(id), id);
        assert p in ping_ix;
        var i :| 0 <= i < |ping_ix| && ping_ix[i] == p;
        assert i in order;
        var j :| 0 <= j < |order| && order[j] == i;
        assert sorted[j] == p;
        assert j < offset;
      }
      SubsetSize(better, ids);
    }

    /** Where jump() goes, for every pair of random draws. */
    method GetServerToJump(rand: nat, rand': nat) returns (srv: int)
      ensures mServersModel.mServers == [] ==> srv == -1
      ensures mServersModel.mServers != [] && List() != [] ==> 0 <= srv < |List()|
      ensures mServersModel.mServers != [] && List() == [] ==> srv == 0
      ensures mServersModel.mServers != [] && (exists id :: Candidate(id)) ==> Candidate(srv)
      ensures mServersModel.mServers != [] && (exists id :: Known(id)) ==>
                Known(srv) && |Better(PingOf(srv))| < Top()
      ensures mServersModel.mServers != [] && KnownIds() != {} ==>
                HasRank(srv, rand % Least(if setting.showNodes then 20 else 6, |KnownIds()|))
      ensures mServersModel.mServers != [] && (exists id :: Candidate(id) && List()[id].mPing >= 0) ==>
                0 <= srv < |List()| && List()[srv].mPing >= 0
      ensures mServersModel.mServers != [] && !setting.showNodes && |List()| > 1 ==> srv != setting.ServerID()
      ensures mServersModel.mServers != [] && setting.showNodes && (exists id :: OtherServer(id)) ==> OtherServer(srv)
    {
      if |mServersModel.mServers| == 0 {
        return -1;
      }
      Meanings();
      hide Candidate, Known, KnownIds, HasRank, Better, OtherServer;
      srv := -1;
      var toping := Candidates();
      srv := PickKnown(toping, rand);
      if srv < 0 {
        srv := PickAny(toping, rand');
      }
      Meanings();
    }

    lemma Meanings()
      ensures (exists id :: Known(id)) <==> KnownIds() != {}
      ensures !setting.showNodes && |List()| > 1 ==> exists id :: Candidate(id)
      ensures !setting.showNodes ==> forall id | Candidate(id) :: id != setting.ServerID()
      ensures setting.showNodes ==> forall id :: OtherServer(id) <==> Candidate(id)
      ensures forall id | Known(id) :: Candidate(id)
      ensures forall id | Candidate(id) :: 0 <= id < |List()| && (Known(id) <==> List()[id].mPing >= 0)
      ensures forall srv, rank | HasRank(srv, rank) :: Known(srv)
    {
      assert !setting.showNodes && |List()| > 1 ==> Candidate(if setting.ServerID() == 0 then 1 else 0);
      assert forall id :: id in KnownIds() <==> Known(id);
      hide HasRank;
      forall srv, rank | HasRank(srv, rank) ensures Known(srv) {
        RankIsKnown(srv, rank);
      }
    }

    lemma RankIsKnown(srv: int, rank: int)
      requires HasRank(srv, rank)
      ensures Known(srv)
    {}

    /** One of the best known pings, or -1 if none is known. */
    method PickKnown(toping: seq<int>, rand: nat) returns (srv: int)
      requires forall id :: id in toping <==> Candidate(id)
      requires forall i, j | 0 <= i < j < |toping| :: toping[i] < toping[j]
      ensures KnownIds() == {} ==> srv == -1
      ensures KnownIds() != {} ==>
                && srv >= 0 && Known(srv) && |Better(PingOf(srv))| < Top()
                && HasRank(srv, rand % Least(if setting.showNodes then 20 else 6, |KnownIds()|))
    {
      var pings := GetPings(toping);
      var ping_ix := KnownPings(toping, pings);
      AllKnown(ping_ix);
      hide HasRank, Better;
      if ping_ix == [] {
        return -1;
      }
      srv := PickBest(ping_ix, rand);
    }

    /** Pings can be unavailable: any candidate, or any server or hub. */
    method PickAny(toping: seq<int>, rand': nat) returns (srv: int)
      requires forall id :: id in toping <==> Candidate(id)
      ensures (exists id :: Candidate(id)) ==> Candidate(srv)
      ensures toping != [] ==> srv == toping[rand' % |toping|]
      ensures toping == [] && List() != [] ==> srv == rand' % |List()|
      ensures mServersModel.mServers != [] ==> if List() != [] then 0 <= srv < |List()| else srv == 0
    {
      srv := -1;
      if toping != [] {
        assert toping[rand' % |toping|] in toping;
        srv := toping[rand' % |toping|];
      } else if setting.showNodes {
        if |mServersModel.mServers| > 0 {
          srv := rand' % |mServersModel.mServers|;
        }
      } else {
        if |mHubsModel.mServers| > 0 {
          srv := rand' % |mHubsModel.mServers|;
        } else {
          srv := 0;
        }
      }
    }

    /** Where a connect command goes: to the server with the current index, or to the hub
        with that index. */
    function Destination(): Option<string>
      reads setting, mServersModel, mHubsModel
    {
      var id := setting.ServerID();
      if 0 <= id < |List()| then Some(List()[id].mIP) else None
    }

    /** The index that was chosen, in the list of the servers or of the hubs, becomes the
        current one exactly when it is the index of a server; the connect command then goes
        to the server or hub that was chosen. */
    method DoJump(rand: nat, rand': nat) returns (ghost chosen: int)
      modifies setting`locationIx
      ensures setting.ServerID() == if 0 <= chosen < |mServersModel.mServers| then chosen else old(setting.ServerID())
      ensures 0 <= chosen < |mServersModel.mServers| && chosen < |List()| ==> Destination() == Some(List()[chosen].mIP)
      ensures mServersModel.mServers == [] ==> chosen == -1
      ensures mServersModel.mServers != [] && List() != [] ==> 0 <= chosen < |List()|
      ensures mServersModel.mServers != [] && old(exists id :: Candidate(id)) ==> old(Candidate(chosen))
    {
      ghost var other: int := if exists id :: Candidate(id) then (var id :| Candidate(id); id) else -1;
      var srv := GetServerToJump(rand, rand');
      chosen := srv;
      assert other != -1 ==> Candidate(other);
      assert Candidate(srv) ==> old(Candidate(srv));
      if srv > -1 {
        setting.SetServer(srv, |mServersModel.mServers|);
      }
    }
  }

  lemma SubsetSize(a: set<int>, b: set<int>)
    requires a <= b
    ensures |a| <= |b|
  {
    assert |b - a| == |b| - |a|;
  }
}
