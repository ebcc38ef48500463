/**
 The search for a full node among a client's peers (pkg/orchestration/k8s/cluster.go, and
 ClosestPeer of pkg/bee/client.go). The loop walks the bins of the topology; a peer that is not
 a full node is put on a skip list and its bin is tried again, by moving the loop index back.
 */
module ClosestFullNode {
  import opened Wrappers

  const MAX_BIN := 32
  const MAX_UINT8 := 255

  // Addresses in hex; the zero address is the empty string.
  type Overlay = string

  // `proximity` is the proximity order of the peer and the client's overlay.
  datatype Peer = Peer(address: Overlay, proximity: nat)

  type Topology = nat -> seq<Peer>

  datatype Node = Node(full: bool, boot: bool)

  datatype Failure = ApiFailed | NoFullNode

  // Proximity orders are far below the largest byte, and no overlay is empty.
  ghost predicate SanePeers(peers: seq<Peer>) {
    forall i :: 0 <= i < |peers| ==> peers[i].proximity < MAX_UINT8 && peers[i].address != ""
  }

  function Skipped(list: seq<Overlay>): set<Overlay> {
    set a | a in list
  }

  //// The peer of one bin

  // Peer i has the smallest proximity value outside `skip`, and is the first with it.
  ghost predicate IsPick(peers: seq<Peer>, skip: set<Overlay>, i: int) {
    && 0 <= i < |peers| && peers[i].address !in skip
    && forall j :: 0 <= j < |peers| && peers[j].address !in skip ==>
         peers[i].proximity <= peers[j].proximity && (j < i ==> peers[i].proximity < peers[j].proximity)
  }

  ghost predicate AllSkipped(peers: seq<Peer>, skip: set<Overlay>) {
    forall j :: 0 <= j < |peers| ==> peers[j].address in skip
  }

  // The address of the picked peer, or the zero address when there is none to pick.
  ghost predicate IsAnswer(peers: seq<Peer>, skip: set<Overlay>, a: Overlay) {
    if AllSkipped(peers, skip) then a == "" else exists i :: IsPick(peers, skip, i) && a == peers[i].address
  }

  method ClosestPeer(peers: seq<Peer>, skipList: seq<Overlay>) returns (closest: Overlay)
    requires SanePeers(peers)
    ensures IsAnswer(peers, Skipped(skipList), closest)
  {
    closest := "";
    if |peers| == 0 {
      return;
    }
    ghost var skip := Skipped(skipList);
    ghost var pick := 0;
    var minProx := MAX_UINT8;
    for k := 0 to |peers|
      invariant minProx == MAX_UINT8 ==> closest == "" && AllSkipped(peers[..k], skip)
      invariant minProx < MAX_UINT8 ==> pick < k && IsPick(peers[..k], skip, pick)
                                        && minProx == peers[pick].proximity && closest == peers[pick].address
      invariant minProx <= MAX_UINT8
    {
      if peers[k].address in skipList {
        continue;
      }
      if peers[k].proximity < minProx {
        minProx, closest, pick := peers[k].proximity, peers[k].address, k;
      }
    }
    assert peers[..|peers|] == peers;
  }

  lemma PickUnique(peers: seq<Peer>, skip: set<Overlay>, i: int, j: int)
    requires IsPick(peers, skip, i) && IsPick(peers, skip, j)
    ensures i == j
  {
  }

  //// The search

  predicate Fit(cluster: map<Overlay, Node>, a: Overlay) {
    a in cluster && cluster[a].full && !cluster[a].boot
  }

  // The cluster nodes that are of no use.
  function Unfit(cluster: map<Overlay, Node>): set<Overlay> {
    set a | a in cluster && !Fit(cluster, a)
  }

  // Bin b offers peer i: first in line among those that are not unusable cluster nodes, and itself
  // a full node of the cluster.
  ghost predicate Offers(cluster: map<Overlay, Node>, peers: seq<Peer>, i: int) {
    IsPick(peers, Unfit(cluster), i) && Fit(cluster, peers[i].address)
  }

  ghost predicate OffersAny(cluster: map<Overlay, Node>, peers: seq<Peer>) {
    exists i :: Offers(cluster, peers, i)
  }

  ghost predicate OffersAddress(cluster: map<Overlay, Node>, peers: seq<Peer>, a: Overlay) {
    exists i :: Offers(cluster, peers, i) && a == peers[i].address
  }

  ghost predicate NoOfferBelow(cluster: map<Overlay, Node>, t: Topology, b: nat) {
    forall c: nat :: c < b ==> !OffersAny(cluster, t(c))
  }

  ghost predicate Always(asks: nat -> Option<Topology>, t: Topology) {
    forall k: nat :: asks(k) == Some(t)
  }

  // `asks(k)` is the topology the k-th call is answered with, or a failure of that call. The first
  // three postconditions hold for any answers, the last ones if they are always `fixed`.
  method ClosestFullNodeClient(cluster: map<Overlay, Node>, asks: nat -> Option<Topology>, ghost fixed: Topology)
    returns (r: Result<Overlay, Failure>, calls: nat)
    requires "" !in cluster
    requires forall k: nat, b: nat :: asks(k).Some? ==> SanePeers(asks(k).value(b))
    ensures r.Ok? ==> Fit(cluster, r.value)
    ensures calls <= |cluster| + 32
    ensures r == Err(ApiFailed) <==> exists k: nat :: k < calls && asks(k).None?
    ensures Always(asks, fixed) ==> (r.Err? <==> NoOfferBelow(cluster, fixed, 32))
    ensures Always(asks, fixed) && r.Ok? ==>
              exists b: nat :: b < 32 && NoOfferBelow(cluster, fixed, b)
                               && OffersAddress(cluster, fixed(b), r.value)
  {
    var skipList: seq<Overlay> := [];
    calls := 0;
    var b := 0;
    while b < MAX_BIN
      invariant 0 <= b <= MAX_BIN
      invariant Skipped(skipList) <= Unfit(cluster)
      invariant calls == b + |Skipped(skipList)|
      invariant forall k: nat :: k < calls ==> asks(k).Some?
      invariant Always(asks, fixed) ==> NoOfferBelow(cluster, fixed, b)
      decreases Unfit(cluster) - Skipped(skipList), MAX_BIN - b
    {
      CountBound(Skipped(skipList), cluster);
      var topology := asks(calls);
      calls := calls + 1;
      if topology.None? {
        return Err(ApiFailed), calls;
      }
      var addr := AskBin(cluster, topology.value(b), skipList);
      if addr !in cluster {
        b := b + 1;
        continue;
      }
      if !cluster[addr].full || cluster[addr].boot {
        SkipGrows(cluster, skipList, addr);
        skipList := skipList + [addr];
        b := b - 1;
        b := b + 1;
        continue;
      }
      return Ok(addr), calls;
    }
    CountBound(Skipped(skipList), cluster);
    return Err(NoFullNode), calls;
  }

  lemma CountBound(skip: set<Overlay>, cluster: map<Overlay, Node>)
    requires skip <= Unfit(cluster)
    ensures |skip| <= |cluster|
    ensures skip != cluster.Keys ==> |skip| < |cluster|
  {
    assert cluster.Keys == skip + (cluster.Keys - skip);
    assert |cluster.Keys| == |skip| + |cluster.Keys - skip|;
  }

  lemma SkipGrows(cluster: map<Overlay, Node>, skipList: seq<Overlay>, addr: Overlay)
    requires addr !in skipList && addr in Unfit(cluster) && Skipped(skipList) <= Unfit(cluster)
    ensures |Skipped(skipList + [addr])| == |Skipped(skipList)| + 1
    ensures Skipped(skipList + [addr]) <= Unfit(cluster)
    ensures Unfit(cluster) - Skipped(skipList + [addr]) < Unfit(cluster) - Skipped(skipList)
  {
    assert Skipped(skipList + [addr]) == Skipped(skipList) + {addr};
    assert addr in Unfit(cluster) - Skipped(skipList);
  }

  method AskBin(cluster: map<Overlay, Node>, peers: seq<Peer>, skipList: seq<Overlay>) returns (addr: Overlay)
    requires "" !in cluster && SanePeers(peers) && Skipped(skipList) <= Unfit(cluster)
    ensures addr in cluster ==> addr !in skipList
    ensures addr !in cluster ==> !OffersAny(cluster, peers)
    ensures Fit(cluster, addr) ==> OffersAddress(cluster, peers, addr)
  {
    addr := ClosestPeer(peers, skipList);
    PickDecides(cluster, peers, Skipped(skipList), addr);
  }

  // What the answer for one bin means for the search: skipping only unusable nodes does not change
  // which other peer is first in line.
  lemma PickDecides(cluster: map<Overlay, Node>, peers: seq<Peer>, skip: set<Overlay>, addr: Overlay)
    requires "" !in cluster && SanePeers(peers) && skip <= Unfit(cluster)
    requires IsAnswer(peers, skip, addr)
    ensures addr in cluster ==> addr !in skip
    ensures addr !in cluster ==> !OffersAny(cluster, peers)
    ensures Fit(cluster, addr) ==> OffersAddress(cluster, peers, addr)
  {
  }

  //// When every connected peer belongs to the cluster

  ghost predicate AllInCluster(cluster: map<Overlay, Node>, peers: seq<Peer>) {
    forall i :: 0 <= i < |peers| ==> peers[i].address in cluster
  }

  lemma {:induction false} PickExists(peers: seq<Peer>, skip: set<Overlay>) returns (i: int)
    requires !AllSkipped(peers, skip)
    ensures IsPick(peers, skip, i)
    decreases |peers|
  {
    var last := |peers| - 1;
    var front := peers[..last];
    if AllSkipped(front, skip) {
      assert forall j :: 0 <= j < last ==> peers[j] == front[j];
      i := last;
    } else {
      i := PickExists(front, skip);
      assert forall j :: 0 <= j < last ==> peers[j] == front[j];
      if peers[last].address !in skip && peers[last].proximity < peers[i].proximity {
        i := last;
      }
    }
  }

  // Then a bin offers a node exactly when a full node is connected in it, so the search fails only
  // if no bin has one.
  lemma OffersWhenFullConnected(cluster: map<Overlay, Node>, peers: seq<Peer>)
    requires AllInCluster(cluster, peers)
    ensures OffersAny(cluster, peers) <==> exists i :: 0 <= i < |peers| && Fit(cluster, peers[i].address)
  {
    if exists i :: 0 <= i < |peers| && Fit(cluster, peers[i].address) {
      var i := PickExists(peers, Unfit(cluster));
      assert Offers(cluster, peers, i);
    }
  }

  lemma FailsOnlyWithoutFullNode(cluster: map<Overlay, Node>, t: Topology)
    requires forall b: nat :: b < MAX_BIN ==> AllInCluster(cluster, t(b))
    ensures NoOfferBelow(cluster, t, MAX_BIN) <==>
            forall b: nat, i :: b < MAX_BIN && 0 <= i < |t(b)| ==> !Fit(cluster, t(b)[i].address)
  {
    forall b: nat | b < MAX_BIN
      ensures OffersAny(cluster, t(b)) <==> exists i :: 0 <= i < |t(b)| && Fit(cluster, t(b)[i].address)
    {
      OffersWhenFullConnected(cluster, t(b));
    }
  }

  // The full node of a bin and a stranger in line before it; no peers in other bins.
  const LONE_NODE := map["full" := Node(true, false)]
  const STRANGER_FIRST := [Peer("stranger", 0), Peer("full", 1)]

  function OnlyBinZero(b: nat): seq<Peer> {
    if b == 0 then STRANGER_FIRST else []
  }

  // A stranger first in line hides a full node of the same bin.
  lemma StrangerHidesFullNode()
    ensures SanePeers(STRANGER_FIRST) && Fit(LONE_NODE, STRANGER_FIRST[1].address)
            && !OffersAny(LONE_NODE, STRANGER_FIRST)
  {
    assert IsPick(STRANGER_FIRST, Unfit(LONE_NODE), 0);
    forall i | Offers(LONE_NODE, STRANGER_FIRST, i)
      ensures false
    {
      PickUnique(STRANGER_FIRST, Unfit(LONE_NODE), 0, i);
    }
  }

  // So the whole search fails although the full node is connected.
  method SearchMissesFullNode() returns (r: Result<Overlay, Failure>, calls: nat)
    ensures r == Err(NoFullNode) && Fit(LONE_NODE, OnlyBinZero(0)[1].address)
  {
    StrangerHidesFullNode();
    var topology: Topology := OnlyBinZero;
    forall b: nat
      ensures !OffersAny(LONE_NODE, topology(b))
    {
      assert topology(b) == OnlyBinZero(b);
    }
    var asks := (k: nat) => Some(topology);
    assert Always(asks, topology);
    r, calls := ClosestFullNodeClient(LONE_NODE, asks, topology);
    assert r.error == ApiFailed || r.error == NoFullNode;
  }
}
