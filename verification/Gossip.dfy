/** Gossip service of one node: the registry of known volume epochs, the answer to a
    quorum vote and the lease loop (crates/btrfs-exchange/src/gossip.rs). */
module Gossip {
  import opened Options
  import opened Clocks
  import opened Text

  type VolumeId = string

  datatype Status = Active | ReadOnly | Conflicted

  datatype NodeInfo = NodeInfo(id: NodeId, zone: string, freeSpace: nat)

  datatype EpochInfo = EpochInfo(epoch: nat, clock: Clock, status: Status)

  datatype VoteRequest = VoteRequest(volume: VolumeId, epoch: nat, clock: Clock, requester: NodeId)

  datatype VoteResponse = VoteResponse(peerEpoch: nat, peerClock: Clock, granted: bool, peer: NodeId, conflict: bool)

  datatype Lease = Lease(granted: bool, votes: nat, needed: nat, conflict: bool)

  datatype ConflictInfo = ConflictInfo(
    nodeA: NodeId, nodeB: NodeId, epochA: nat, epochB: nat, clockA: Clock, clockB: Clock)

  /** The answer of a voter whose registry holds `known` for the volume. */
  function Vote(known: Option<EpochInfo>, voter: NodeId, clock: Clock): VoteResponse {
    match known
    case None => VoteResponse(0, map[], true, voter, false)
    case Some(info) =>
      var conflict := HasConflict(info.clock, clock);
      VoteResponse(info.epoch, info.clock, !conflict || info.epoch == 0, voter, conflict)
  }

  /** Peers whose answer counts as a vote, and peers that report a conflict.
      `answers` holds the responses that arrived and could be parsed. */
  function Granting(peers: set<NodeId>, self: NodeId, answers: map<NodeId, VoteResponse>): set<NodeId> {
    set p | p in peers && p != self && p in answers && !answers[p].conflict && answers[p].granted
  }

  function Objecting(peers: set<NodeId>, self: NodeId, answers: map<NodeId, VoteResponse>): set<NodeId> {
    set p | p in peers && p != self && p in answers && answers[p].conflict
  }

  function VotesNeeded(peers: set<NodeId>): nat {
    |peers| / 2 + 1
  }

  /** The lease outcome as a function of who answered what: no order of peers in it. */
  function Decide(peers: set<NodeId>, self: NodeId, answers: map<NodeId, VoteResponse>): Lease {
    var votes := 1 + |Granting(peers, self, answers)|;
    var conflict := Objecting(peers, self, answers) != {};
    Lease(!conflict && votes >= VotesNeeded(peers), votes, VotesNeeded(peers), conflict)
  }

  /** The nodes behind a lease: the requester and the peers whose votes were counted. */
  function Voters(peers: set<NodeId>, self: NodeId, answers: map<NodeId, VoteResponse>): set<NodeId> {
    {self} + Granting(peers, self, answers)
  }

  class GossipService {
    const nodeId: NodeId
    var peers: map<NodeId, NodeInfo>
    var volumeEpochs: map<VolumeId, EpochInfo>

    constructor (nodeId: NodeId)
      ensures this.nodeId == nodeId && peers == map[] && volumeEpochs == map[]
    {
      this.nodeId := nodeId;
      peers, volumeEpochs := map[], map[];
    }

    function Known(v: VolumeId): Option<EpochInfo>
      reads this
    {
      if v in volumeEpochs then Some(volumeEpochs[v]) else None
    }

    /** NodeJoin arm: remember the joiner, answer with the whole map, joiner included. */
    method HandleNodeJoin(joiner: NodeInfo) returns (nodes: set<NodeInfo>)
      modifies this`peers
      ensures peers == old(peers)[joiner.id := joiner]
      ensures nodes == peers.Values && joiner in nodes
    {
      peers := peers[joiner.id := joiner];
      assert peers[joiner.id] == joiner;
      nodes := peers.Values;
    }

    /** `join_cluster` on a NodeList answer: every listed node is inserted, so a joiner
        ends up with itself in its own map. */
    method AdoptNodeList(nodes: set<NodeInfo>)
      modifies this`peers
      ensures peers.Keys == old(peers.Keys) + set n | n in nodes :: n.id
      ensures forall id | id in peers ::
        (id in old(peers) && peers[id] == old(peers)[id]) || (peers[id] in nodes && peers[id].id == id)
    {
      var rest := nodes;
      while rest != {}
        invariant rest <= nodes
        invariant peers.Keys == old(peers.Keys) + set n | n in nodes - rest :: n.id
        invariant forall id | id in peers ::
          (id in old(peers) && peers[id] == old(peers)[id]) || (peers[id] in nodes && peers[id].id == id)
        decreases rest
      {
        var n :| n in rest;
        peers := peers[n.id := n];
        assert nodes - (rest - {n}) == (nodes - rest) + {n};
        rest := rest - {n};
      }
      assert nodes - rest == nodes;
    }

    /** QuorumVote arm. */
    method HandleQuorumVote(req: VoteRequest) returns (resp: VoteResponse)
      ensures resp == Vote(Known(req.volume), nodeId, req.clock)
      ensures resp.peer == nodeId && (resp.granted <==> !resp.conflict || resp.peerEpoch == 0)
      ensures req.volume in volumeEpochs ==>
        resp.peerEpoch == volumeEpochs[req.volume].epoch && resp.peerClock == volumeEpochs[req.volume].clock
      ensures req.volume !in volumeEpochs ==>
        resp.peerEpoch == 0 && resp.peerClock == map[] && resp.granted && !resp.conflict
      ensures req.volume in volumeEpochs ==>
        (resp.conflict <==>
           !Le(volumeEpochs[req.volume].clock, req.clock) && !Le(req.clock, volumeEpochs[req.volume].clock))
    {
      var peerEpoch, peerClock, conflict := 0, map[], false;
      if req.volume in volumeEpochs {
        var info := volumeEpochs[req.volume];
        peerEpoch, peerClock := info.epoch, info.clock;
        conflict := HasConflict(info.clock, req.clock);
        ConflictIsIncomparability(info.clock, req.clock);
      }
      resp := VoteResponse(peerEpoch, peerClock, !conflict || peerEpoch == 0, nodeId, conflict);
    }

    method RegisterVolumeEpoch(v: VolumeId, epoch: nat, clock: Clock, status: Status)
      modifies this`volumeEpochs
      ensures volumeEpochs == old(volumeEpochs)[v := EpochInfo(epoch, clock, status)]
    {
      volumeEpochs := volumeEpochs[v := EpochInfo(epoch, clock, status)];
    }

    /** DeleteVolume arm: the registry entry goes. */
    method HandleDeleteVolume(v: VolumeId)
      modifies this`volumeEpochs
      ensures volumeEpochs == old(volumeEpochs) - {v}
    {
      volumeEpochs := volumeEpochs - {v};
    }

    /** ConflictDetected arm: only the status of a known entry changes. */
    method HandleConflictDetected(v: VolumeId)
      modifies this`volumeEpochs
      ensures volumeEpochs.Keys == old(volumeEpochs.Keys)
      ensures forall u | u in volumeEpochs ::
        volumeEpochs[u] == if u == v then old(volumeEpochs)[u].(status := Conflicted) else old(volumeEpochs)[u]
    {
      if v in volumeEpochs {
        volumeEpochs := volumeEpochs[v := volumeEpochs[v].(status := Conflicted)];
      }
    }

    /** `request_quorum_lease`: peers are visited in an arbitrary order; the outcome is
        the order-free `Decide`, and the reported conflict is one a peer answered. */
    method RequestQuorumLease(epoch: nat, clock: Clock, answers: map<NodeId, VoteResponse>)
      returns (lease: Lease, info: Option<ConflictInfo>)
      ensures lease == Decide(peers.Keys, nodeId, answers)
      ensures lease.votes == 1 + |set p | p in peers.Keys && p != nodeId && p in answers
                                        && answers[p].granted && !answers[p].conflict|
      ensures lease.needed == |peers| / 2 + 1
      ensures lease.conflict <==> exists p :: p in peers && p != nodeId && p in answers && answers[p].conflict
      ensures lease.granted <==> !lease.conflict && lease.votes >= lease.needed
      ensures info.Some? <==> lease.conflict
      ensures info.Some? ==> exists p | p in Objecting(peers.Keys, nodeId, answers) ::
        info.value == ConflictWith(nodeId, epoch, clock, answers[p])
    {
      if |peers| == 0 {
        assert peers.Keys == {};
        LeaseExactly(peers.Keys, nodeId, answers);
        return Lease(true, 1, 1, false), None;
      }
      var required := |peers| / 2 + 1;
      assert |peers| == |peers.Keys|;
      var votes, conflict := 1, false;
      info := None;
      var visited: set<NodeId> := {};
      assert TallyOk(visited, nodeId, answers, epoch, clock, votes, info);
      while peers.Keys - visited != {}
        invariant visited <= peers.Keys
        invariant TallyOk(visited, nodeId, answers, epoch, clock, votes, info)
        invariant conflict <==> info.Some?
        decreases peers.Keys - visited
      {
        var p :| p in peers.Keys - visited;
        TallyStep(visited, p, nodeId, answers, epoch, clock, votes, info);
        visited := visited + {p};
        if p != nodeId && p in answers {
          var vote := answers[p];
          if vote.conflict {
            conflict := true;
            info := Some(ConflictInfo(nodeId, vote.peer, epoch, vote.peerEpoch, clock, vote.peerClock));
          } else if vote.granted {
            votes := votes + 1;
          }
        }
      }
      assert visited == peers.Keys;
      lease := Lease(!conflict && votes >= required, votes, required, conflict);
      LeaseExactly(peers.Keys, nodeId, answers);
    }
  }

  /** The lease outcome by the answers alone. */
  lemma LeaseExactly(peers: set<NodeId>, self: NodeId, answers: map<NodeId, VoteResponse>)
    ensures var lease := Decide(peers, self, answers);
      && lease.votes == 1 + |set p | p in peers && p != self && p in answers
                                   && answers[p].granted && !answers[p].conflict|
      && lease.needed == |peers| / 2 + 1
      && (lease.conflict <==> exists p :: p in peers && p != self && p in answers && answers[p].conflict)
      && (lease.granted <==> !lease.conflict && lease.votes >= lease.needed)
  {
    assert Granting(peers, self, answers)
        == set p | p in peers && p != self && p in answers && answers[p].granted && !answers[p].conflict;
    forall p ensures p in Objecting(peers, self, answers) <==>
      p in peers && p != self && p in answers && answers[p].conflict
    {
    }
    assert Objecting(peers, self, answers) != {} <==> exists p :: p in Objecting(peers, self, answers);
  }

  // ---------- replica targets ----------

  /** Peers that may be chosen: not this node, not excluded. */
  function Eligible(peers: set<NodeId>, self: NodeId, exclude: set<NodeId>): set<NodeId> {
    peers - exclude - {self}
  }

  function FreeSpace(peers: map<NodeId, NodeInfo>, id: NodeId): nat {
    if id in peers then peers[id].freeSpace else 0
  }

  ghost predicate ByFreeSpace(peers: map<NodeId, NodeInfo>, ids: seq<NodeId>) {
    forall i, j | 0 <= i < j < |ids| :: FreeSpace(peers, ids[i]) >= FreeSpace(peers, ids[j])
  }

  /** At most `count` of the eligible peers, each once, by free space, and no eligible peer
      left out has more free space than a chosen one. */
  ghost predicate BestTargets(peers: map<NodeId, NodeInfo>, eligible: set<NodeId>, count: nat, r: seq<NodeId>) {
    && (forall id | id in r :: id in eligible)
    && Distinct(r) && ByFreeSpace(peers, r)
    && |r| == (if count < |eligible| then count else |eligible|)
    && (forall id, i | id in eligible && id !in r && 0 <= i < |r| :: FreeSpace(peers, id) <= FreeSpace(peers, r[i]))
  }

  lemma InsertKeepsOrder(peers: map<NodeId, NodeInfo>, ids: seq<NodeId>, p: nat, x: NodeId)
    requires p <= |ids| && ByFreeSpace(peers, ids)
    requires p > 0 ==> FreeSpace(peers, ids[p - 1]) >= FreeSpace(peers, x)
    requires forall i | p <= i < |ids| :: FreeSpace(peers, ids[i]) < FreeSpace(peers, x)
    ensures ByFreeSpace(peers, ids[..p] + [x] + ids[p..])
  {
    var r := ids[..p] + [x] + ids[p..];
    forall i, j | 0 <= i < j < |r| ensures FreeSpace(peers, r[i]) >= FreeSpace(peers, r[j]) {
      assert i < p ==> r[i] == ids[i];
      assert j > p ==> r[j] == ids[j - 1];
    }
  }

  /** One insertion of the sort by free space, largest first. */
  method InsertByFreeSpace(peers: map<NodeId, NodeInfo>, ids: seq<NodeId>, x: NodeId) returns (r: seq<NodeId>)
    requires x !in ids && ByFreeSpace(peers, ids) && Distinct(ids)
    ensures |r| == |ids| + 1 && Distinct(r)
    ensures forall id :: id in r <==> id == x || id in ids
    ensures ByFreeSpace(peers, r)
  {
    var p := |ids|;
    while p > 0 && FreeSpace(peers, ids[p - 1]) < FreeSpace(peers, x)
      invariant 0 <= p <= |ids|
      invariant forall i | p <= i < |ids| :: FreeSpace(peers, ids[i]) < FreeSpace(peers, x)
    {
      p := p - 1;
    }
    r := ids[..p] + [x] + ids[p..];
    InsertAt(ids, p, x);
    InsertKeepsOrder(peers, ids, p, x);
  }

  /** The candidates in the order of the sort, whatever order the map yields them in. */
  method SortCandidates(peers: map<NodeId, NodeInfo>, candidates: set<NodeId>) returns (all: seq<NodeId>)
    ensures forall id :: id in all <==> id in candidates
    ensures |all| == |candidates| && Distinct(all) && ByFreeSpace(peers, all)
  {
    all := [];
    var rest := candidates;
    while rest != {}
      invariant rest <= candidates
      invariant forall id :: id in all <==> id in candidates && id !in rest
      invariant |all| == |candidates| - |rest|
      invariant Distinct(all) && ByFreeSpace(peers, all)
      decreases rest
    {
      var id :| id in rest;
      all := InsertByFreeSpace(peers, all, id);
      rest := rest - {id};
    }
  }

  /** The peers that are neither this node nor excluded. */
  lemma EligibleExactly(peers: set<NodeId>, self: NodeId, exclude: set<NodeId>, id: NodeId)
    ensures id in Eligible(peers, self, exclude) <==> id in peers && id != self && id !in exclude
  {
  }

  /** `select_replica_targets`. */
  method SelectReplicaTargets(
    peers: map<NodeId, NodeInfo>, self: NodeId, exclude: seq<NodeId>, count: nat) returns (r: seq<NodeId>)
    ensures forall id | id in r :: id in peers && id != self && id !in exclude
    ensures Distinct(r) && |r| <= count
    ensures forall id | id in peers && id != self && id !in exclude && id !in r ::
      |r| == count && forall i | 0 <= i < |r| :: FreeSpace(peers, id) <= FreeSpace(peers, r[i])
    ensures BestTargets(peers, Eligible(peers.Keys, self, set x | x in exclude), count, r)
  {
    var candidates := set id | id in peers && id != self && id !in exclude;
    assert candidates == Eligible(peers.Keys, self, set x | x in exclude);
    var all := SortCandidates(peers, candidates);
    r := if count < |all| then all[..count] else all;
    FrontIsBest(peers, candidates, count, all);
    forall id | id in peers && id != self && id !in exclude && id !in r ensures |r| == count {
      assert id in candidates && id in all;
    }
  }

  /** The front of the candidates sorted by free space. */
  lemma FrontIsBest(peers: map<NodeId, NodeInfo>, eligible: set<NodeId>, count: nat, all: seq<NodeId>)
    requires |all| == |eligible| && Distinct(all) && ByFreeSpace(peers, all)
    requires forall id :: id in all <==> id in eligible
    ensures BestTargets(peers, eligible, count, if count < |all| then all[..count] else all)
  {
    var k := if count < |all| then count else |all|;
    var r := all[..k];
    assert all[..|all|] == all;
    forall id | id in r ensures id in eligible { assert id in all; }
    forall id, i | id in eligible && id !in r && 0 <= i < |r| ensures FreeSpace(peers, id) <= FreeSpace(peers, r[i]) {
      var j :| 0 <= j < |all| && all[j] == id;
      assert j >= k by { assert forall i | 0 <= i < k :: r[i] == all[i]; }
    }
  }

  lemma VisitPeer(visited: set<NodeId>, p: NodeId, self: NodeId, answers: map<NodeId, VoteResponse>)
    requires p !in visited
    ensures var counted := p != self && p in answers;
      && Granting(visited + {p}, self, answers) == Granting(visited, self, answers)
           + (if counted && !answers[p].conflict && answers[p].granted then {p} else {})
      && Objecting(visited + {p}, self, answers) == Objecting(visited, self, answers)
           + (if counted && answers[p].conflict then {p} else {})
      && p !in Granting(visited, self, answers)
  {
  }

  /** What the lease loop has counted after the peers in `visited`. */
  ghost predicate TallyOk(
    visited: set<NodeId>, self: NodeId, answers: map<NodeId, VoteResponse>, epoch: nat, clock: Clock,
    votes: nat, info: Option<ConflictInfo>)
  {
    && votes == 1 + |Granting(visited, self, answers)|
    && (info.Some? <==> Objecting(visited, self, answers) != {})
    && (info.Some? ==> exists p | p in Objecting(visited, self, answers) ::
          info.value == ConflictWith(self, epoch, clock, answers[p]))
  }

  function ConflictWith(self: NodeId, epoch: nat, clock: Clock, vote: VoteResponse): ConflictInfo {
    ConflictInfo(self, vote.peer, epoch, vote.peerEpoch, clock, vote.peerClock)
  }

  lemma TallyStep(
    visited: set<NodeId>, p: NodeId, self: NodeId, answers: map<NodeId, VoteResponse>, epoch: nat, clock: Clock,
    votes: nat, info: Option<ConflictInfo>)
    requires p !in visited && TallyOk(visited, self, answers, epoch, clock, votes, info)
    ensures var counted := p != self && p in answers;
      if counted && answers[p].conflict then
        TallyOk(visited + {p}, self, answers, epoch, clock, votes, Some(ConflictWith(self, epoch, clock, answers[p])))
      else
        TallyOk(visited + {p}, self, answers, epoch, clock,
          if counted && answers[p].granted then votes + 1 else votes, info)
  {
    VisitPeer(visited, p, self, answers);
    if p != self && p in answers && answers[p].conflict {
      assert p in Objecting(visited + {p}, self, answers);
    }
  }

  // ---------- which thresholds are cluster majorities ----------

  /** A node's view of the whole cluster: its peer map plus itself. The map of a joiner
      holds the joiner, the map of the node it joined through does not hold that node. */
  ghost predicate FullView(cluster: set<NodeId>, peers: set<NodeId>, self: NodeId) {
    self in cluster && peers + {self} == cluster
  }

  lemma ThresholdOf(cluster: set<NodeId>, peers: set<NodeId>, self: NodeId)
    requires FullView(cluster, peers, self)
    ensures VotesNeeded(peers) == (if self in peers then |cluster| else |cluster| - 1) / 2 + 1
  {
    if self in peers {
      assert peers == cluster;
    } else {
      assert peers == cluster - {self};
    }
  }

  lemma {:induction false} SubsetSize<T>(a: set<T>, b: set<T>)
    requires a <= b
    ensures |a| <= |b|
  {
    if a != {} {
      var x :| x in a;
      SubsetSize(a - {x}, b - {x});
    }
  }

  lemma Overlap<T>(s: set<T>, a: set<T>, b: set<T>)
    requires a <= s && b <= s && |a| + |b| > |s|
    ensures a * b != {}
  {
    SubsetSize(a + b, s);
    assert |a + b| + |a * b| == |a| + |b|;
  }

  /** A granted lease is backed by at least half of the cluster, and by more than half
      when the requester's own map holds it or the cluster size is odd. */
  lemma VotersOfGrantedLease(
    cluster: set<NodeId>, peers: set<NodeId>, self: NodeId, answers: map<NodeId, VoteResponse>)
    requires FullView(cluster, peers, self) && Decide(peers, self, answers).granted
    ensures Voters(peers, self, answers) <= cluster
    ensures 2 * |Voters(peers, self, answers)| >= |cluster|
    ensures self in peers || |cluster| % 2 == 1 ==> 2 * |Voters(peers, self, answers)| > |cluster|
  {
    assert self !in Granting(peers, self, answers);
    assert |Voters(peers, self, answers)| == Decide(peers, self, answers).votes;
    ThresholdOf(cluster, peers, self);
  }

  /** Two granted leases share a voter when some requester's map holds the requester
      itself, or when the cluster size is odd. */
  lemma GrantedLeasesIntersect(
    cluster: set<NodeId>,
    peersA: set<NodeId>, a: NodeId, answersA: map<NodeId, VoteResponse>,
    peersB: set<NodeId>, b: NodeId, answersB: map<NodeId, VoteResponse>)
    requires FullView(cluster, peersA, a) && FullView(cluster, peersB, b)
    requires Decide(peersA, a, answersA).granted && Decide(peersB, b, answersB).granted
    requires a in peersA || b in peersB || |cluster| % 2 == 1
    ensures Voters(peersA, a, answersA) * Voters(peersB, b, answersB) != {}
  {
    var va, vb := Voters(peersA, a, answersA), Voters(peersB, b, answersB);
    VotersOfGrantedLease(cluster, peersA, a, answersA);
    VotersOfGrantedLease(cluster, peersB, b, answersB);
    Overlap(cluster, va, vb);
  }

  lemma {:induction false} SubsetOfSize<T>(s: set<T>, k: nat) returns (t: set<T>)
    requires k <= |s|
    ensures t <= s && |t| == k
  {
    if k == 0 {
      t := {};
    } else {
      var x :| x in s;
      t := SubsetOfSize(s - {x}, k - 1);
      t := t + {x};
    }
  }

  /** Otherwise it fails: any two members of a cluster of even size whose maps omit the
      requesters can be granted by disjoint halves. */
  lemma DisjointGrantsExist(cluster: set<NodeId>, a: NodeId, b: NodeId)
    returns (answersA: map<NodeId, VoteResponse>, answersB: map<NodeId, VoteResponse>)
    requires a in cluster && b in cluster && a != b && |cluster| % 2 == 0
    ensures Decide(cluster - {a}, a, answersA).granted && Decide(cluster - {b}, b, answersB).granted
    ensures Voters(cluster - {a}, a, answersA) * Voters(cluster - {b}, b, answersB) == {}
  {
    SubsetSize({a, b}, cluster);
    var others := cluster - {a, b};
    assert |others| == |cluster| - 2;
    var half := SubsetOfSize(others, |cluster| / 2 - 1);
    half := half + {a};
    var other := cluster - half;
    assert |half| == |cluster| / 2 && |other| == |cluster| / 2;
    answersA := GrantedBy(cluster, half, a);
    answersB := GrantedBy(cluster, other, b);
  }

  /** Exactly when granted leases of two members of a cluster always share a voter. */
  lemma LeasesAlwaysIntersectExactly(
    cluster: set<NodeId>, peersA: set<NodeId>, a: NodeId, peersB: set<NodeId>, b: NodeId)
    requires FullView(cluster, peersA, a) && FullView(cluster, peersB, b)
    ensures (forall answersA, answersB ::
        Decide(peersA, a, answersA).granted && Decide(peersB, b, answersB).granted ==>
          Voters(peersA, a, answersA) * Voters(peersB, b, answersB) != {})
      <==> a == b || a in peersA || b in peersB || |cluster| % 2 == 1
  {
    if a == b || a in peersA || b in peersB || |cluster| % 2 == 1 {
      forall answersA, answersB | Decide(peersA, a, answersA).granted && Decide(peersB, b, answersB).granted
        ensures Voters(peersA, a, answersA) * Voters(peersB, b, answersB) != {}
      {
        if a == b {
          assert a in Voters(peersA, a, answersA) * Voters(peersB, b, answersB);
        } else {
          GrantedLeasesIntersect(cluster, peersA, a, answersA, peersB, b, answersB);
        }
      }
    } else {
      assert peersA == cluster - {a} && peersB == cluster - {b};
      var answersA, answersB := DisjointGrantsExist(cluster, a, b);
    }
  }

  lemma GrantedBy(cluster: set<NodeId>, half: set<NodeId>, n: NodeId) returns (answers: map<NodeId, VoteResponse>)
    requires half <= cluster && n in half && 2 * |half| == |cluster|
    ensures Decide(cluster - {n}, n, answers).granted
    ensures Voters(cluster - {n}, n, answers) == half
  {
    answers := map p | p in half - {n} :: Vote(None, p, map[]);
    assert Granting(cluster - {n}, n, answers) == half - {n};
    assert Objecting(cluster - {n}, n, answers) == {};
    assert |cluster - {n}| == |cluster| - 1;
  }
}
