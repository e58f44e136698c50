/** The controller of one node working on the xattr texts of one volume
    (crates/btrfs-csi/src/csi_controller.rs, crates/btrfs-ops/src/xattr.rs). Every method
    is proved against the decoded operations of module Volumes. */
module Controller {
  import opened Options
  import opened Clocks
  import opened Text
  import opened XattrText
  import opened Gossip
  import opened Volumes

  datatype Attr = Epoch | VectorClock | VolumeStatus | Published | Other(name: string)

  /** The `user.csi.*` attributes of a subvolume. */
  type Xattrs = map<Attr, string>

  /** `get_csi_attr`: the value comes back trimmed. */
  function Read(x: Xattrs, a: Attr): Option<string> {
    if a in x then Some(Trim(x[a])) else None
  }

  function ReadEpoch(x: Xattrs): nat {
    match Read(x, Epoch)
    case None => 0
    case Some(v) => match ParseU64(v) case None => 0 case Some(e) => e
  }

  function ReadClock(x: Xattrs): Clock {
    match Read(x, VectorClock)
    case None => map[]
    case Some(v) => ParseClock(v)
  }

  function StatusText(s: Status): string {
    match s
    case Active => "active"
    case ReadOnly => "readonly"
    case Conflicted => "conflict"
  }

  /** A missing status reads as active; only "conflict" is ever tested for. */
  function ReadStatus(x: Xattrs): Status {
    match Read(x, VolumeStatus)
    case None => Active
    case Some(v) => if v == "conflict" then Conflicted else if v == "readonly" then ReadOnly else Active
  }

  function ReadPublished(x: Xattrs): seq<NodeId> {
    DecodePublished(Read(x, Published))
  }

  function MetaOf(x: Xattrs): Meta {
    Meta(ReadEpoch(x), ReadClock(x), ReadStatus(x), ReadPublished(x))
  }

  /** No empty id in the published list: kept by every operation with non-empty ids. */
  predicate Tidy(x: Xattrs) {
    "" !in ReadPublished(x)
  }

  predicate CleanTarget(t: NodeId) {
    t != "" && CleanItem(t)
  }

  /** The counters a promotion on `n` would tick still fit 64 bits. */
  predicate CanTick(m: Meta, n: NodeId) {
    m.epoch + 1 < U64_LIMIT && At(m.clock, n) + 1 < U64_LIMIT
  }

  /** The attributes a promotion copies over from the replica. */
  const COPIED: seq<string> := ["volume_id", "size", "zone", "profile", "created_at", "replica_count"]

  /** All attributes beside the quorum attributes read the same. */
  ghost predicate SameDetails(x: Xattrs, y: Xattrs) {
    forall a: Attr | a.Other? :: Read(y, a) == Read(x, a)
  }

  lemma QuorumWrite(x: Xattrs, a: Attr, v: string)
    requires !a.Other?
    ensures SameDetails(x, x[a := v])
  {
  }

  lemma TickIsReadable(c: Clock, n: NodeId)
    requires Readable(c) && CleanKey(n) && At(c, n) + 1 < U64_LIMIT
    ensures Readable(Tick(c, n))
  {
  }

  /** A subvolume without attributes. */
  lemma MissingAttrs(x: Xattrs)
    requires forall a | a in x :: a.Other?
    ensures MetaOf(x) == Meta(0, map[], Active, [])
  {
  }

  lemma OtherWritten(x: Xattrs, name: string, v: string)
    ensures MetaOf(x[Other(name) := v]) == MetaOf(x)
  {
    var y := x[Other(name) := v];
    assert Read(y, Epoch) == Read(x, Epoch) && Read(y, VectorClock) == Read(x, VectorClock);
    assert Read(y, VolumeStatus) == Read(x, VolumeStatus) && Read(y, Published) == Read(x, Published);
  }

  lemma EpochWritten(x: Xattrs, e: nat)
    requires e < U64_LIMIT
    ensures MetaOf(x[Epoch := Decimal(e)]) == MetaOf(x).(epoch := e)
  {
    ParseDecimal(e);
    TrimShape(Decimal(e));
  }

  lemma ClockWritten(x: Xattrs, c: Clock, s: string)
    requires Printed(c, s)
    requires Readable(c)
    ensures MetaOf(x[VectorClock := s]) == MetaOf(x).(clock := c)
  {
    var y := x[VectorClock := s];
    assert ReadClock(y) == c by { PrintedReadsBack(c, s); }
    assert Read(y, Epoch) == Read(x, Epoch) && Read(y, Published) == Read(x, Published);
    assert Read(y, VolumeStatus) == Read(x, VolumeStatus);
  }

  lemma PrintedReadsBack(c: Clock, s: string)
    requires Printed(c, s) && Readable(c)
    ensures ParseClock(Trim(s)) == c
  {
    var ts :| Lists(ts, c) && Sorted(ts) && s == Join(ts, ',');
    CleanClockReadsBack(c, ts);
    TrimShape(s);
  }

  lemma StatusWritten(x: Xattrs, s: Status)
    ensures Read(x[VolumeStatus := StatusText(s)], VolumeStatus) == Some(StatusText(s))
    ensures MetaOf(x[VolumeStatus := StatusText(s)]) == MetaOf(x).(status := s)
  {
    TrimShape(StatusText(s));
  }

  lemma PublishedWritten(x: Xattrs, xs: seq<NodeId>)
    requires forall t | t in xs :: CleanTarget(t)
    ensures MetaOf(x[Published := Join(xs, ',')]) == MetaOf(x).(published := xs)
  {
    var y := x[Published := Join(xs, ',')];
    assert ReadPublished(y) == xs by { JoinReadsBack(xs); }
    assert Read(y, Epoch) == Read(x, Epoch) && Read(y, VectorClock) == Read(x, VectorClock);
    assert Read(y, VolumeStatus) == Read(x, VolumeStatus);
  }

  lemma PublishedRemoved(x: Xattrs)
    ensures MetaOf(x - {Published}) == MetaOf(x).(published := []) && SameDetails(x, x - {Published})
  {
    var y := x - {Published};
    assert Read(y, Epoch) == Read(x, Epoch) && Read(y, VectorClock) == Read(x, VectorClock);
    assert Read(y, VolumeStatus) == Read(x, VolumeStatus) && Read(y, Published) == None;
  }

  lemma JoinReadsBack(xs: seq<NodeId>)
    requires forall t | t in xs :: CleanTarget(t)
    ensures DecodePublished(Some(Trim(Join(xs, ',')))) == xs
  {
    assert xs != [""] by { assert "" in [""]; }
    PublishedRoundTrip(xs);
  }

  lemma PublishedItemsClean(x: Xattrs)
    requires Tidy(x)
    ensures forall t | t in ReadPublished(x) :: CleanTarget(t)
  {
    DecodedItemsClean(Read(x, Published));
  }

  lemma ReadClockClean(x: Xattrs)
    ensures Readable(ReadClock(x))
  {
    if VectorClock in x { ParsedKeysClean(Trim(x[VectorClock])); }
  }

  /** The requests of a run on one copy, with the answers the peers give to each. */
  datatype Rpc =
    | PublishRpc(target: NodeId, answers: map<NodeId, VoteResponse>)
    | UnpublishRpc(target: NodeId)
    | DeleteRpc(removed: bool)

  function OpOf(rpc: Rpc, peers: set<NodeId>, self: NodeId): CopyOp {
    match rpc
    case PublishRpc(t, answers) => Publish(t, Decide(peers, self, answers))
    case UnpublishRpc(t) => Unpublish(t)
    case DeleteRpc(removed) => Remove(removed)
  }

  function OpsOf(rpcs: seq<Rpc>, peers: set<NodeId>, self: NodeId): (ops: seq<CopyOp>)
    ensures |ops| == |rpcs|
  {
    seq(|rpcs|, i requires 0 <= i < |rpcs| => OpOf(rpcs[i], peers, self))
  }

  lemma OpsSnoc(m: Option<Meta>, rpcs: seq<Rpc>, i: nat, peers: set<NodeId>, self: NodeId)
    requires i < |rpcs|
    ensures ApplyAll(m, OpsOf(rpcs[..i + 1], peers, self))
         == Apply(ApplyAll(m, OpsOf(rpcs[..i], peers, self)), OpOf(rpcs[i], peers, self))
  {
    var ops := OpsOf(rpcs[..i + 1], peers, self);
    assert ops[..i] == OpsOf(rpcs[..i], peers, self);
    assert ops[i] == OpOf(rpcs[i], peers, self);
  }

  /** The decoded copy, if it is there. */
  function Decoded(live: Option<Xattrs>): Option<Meta> {
    match live
    case None => None
    case Some(x) => Some(MetaOf(x))
  }

  /** A target that the list text can take on. */
  predicate CleanRpc(rpc: Rpc) {
    rpc.PublishRpc? ==> CleanTarget(rpc.target)
  }

  /** What the list text can hold: a tidy list of distinct ids, and clean targets to add. */
  ghost predicate CleanRun(x: Xattrs, rpcs: seq<Rpc>) {
    Tidy(x) && Distinct(ReadPublished(x)) && forall rpc | rpc in rpcs :: CleanRpc(rpc)
  }

  /** Everything that reaches a node, as the code sees it. */
  datatype Input = CreateInput(details: Details) | Serve(rpc: Rpc) | PeerDelete | PeerConflict

  function RequestOf(input: Input, peers: set<NodeId>, self: NodeId): Request {
    match input
    case CreateInput(_) => CreateHere
    case Serve(PublishRpc(t, answers)) => PublishHere(t, Decide(peers, self, answers))
    case Serve(UnpublishRpc(t)) => UnpublishHere(t)
    case Serve(DeleteRpc(removed)) => DeleteHere(removed)
    case PeerDelete => DeletedByPeer
    case PeerConflict => ConflictFromPeer
  }

  /** The attributes of a new volume beside the quorum attributes. */
  datatype Details = Details(size: string, zone: string, profile: string, createdAt: string, replicaCount: string)

  class CsiController {
    const nodeId: NodeId
    const volume: VolumeId
    const gossip: GossipService
    /** The subvolume in the data directory, and the received replica in the snapshot directory. */
    var live: Option<Xattrs>
    var replica: Option<Xattrs>

    ghost predicate Valid()
    {
      gossip.nodeId == nodeId
    }

    constructor (volume: VolumeId, gossip: GossipService)
      ensures Valid() && this.gossip == gossip && this.volume == volume
      ensures live == None && replica == None
    {
      this.nodeId, this.volume, this.gossip := gossip.nodeId, volume, gossip;
      live, replica := None, None;
    }

    /** CreateVolume: an existing subvolume is left alone. */
    method CreateVolume(d: Details)
      requires Valid()
      modifies this`live, gossip`volumeEpochs
      ensures old(live).Some? ==> live == old(live) && gossip.volumeEpochs == old(gossip.volumeEpochs)
      ensures old(live).None? ==>
        && live.Some?
        && Described(live.value, d)
        && Read(live.value, VolumeStatus) == Some("active")
        && (CleanKey(nodeId) ==> MetaOf(live.value) == Created(nodeId) && Tidy(live.value))
        && gossip.volumeEpochs == old(gossip.volumeEpochs)[volume := EpochInfo(1, map[nodeId := 1], Active)]
    {
      if live.Some? { return; }
      var x := Describe(d);
      var clock: Clock := map[nodeId := 1];
      x := SetQuorumAttrs(x, clock);
      live := Some(x);
      gossip.RegisterVolumeEpoch(volume, 1, clock, Active);
    }

    predicate Described(x: Xattrs, d: Details) {
      && Read(x, Other("volume_id")) == Some(Trim(volume))
      && Read(x, Other("size")) == Some(Trim(d.size))
      && Read(x, Other("zone")) == Some(Trim(d.zone))
      && Read(x, Other("profile")) == Some(Trim(d.profile))
      && Read(x, Other("created_at")) == Some(Trim(d.createdAt))
      && Read(x, Other("replica_count")) == Some(Trim(d.replicaCount))
    }

    method Describe(d: Details) returns (x: Xattrs)
      ensures Described(x, d) && forall a | a in x :: a.Other?
    {
      x := map[Other("volume_id") := volume];
      x := x[Other("size") := d.size];
      x := x[Other("zone") := d.zone];
      x := x[Other("profile") := d.profile];
      x := x[Other("created_at") := d.createdAt];
      x := x[Other("replica_count") := d.replicaCount];
    }

    /** Epoch 1, the clock and the active status; nothing published yet. */
    method SetQuorumAttrs(x: Xattrs, clock: Clock) returns (y: Xattrs)
      requires forall a | a in x :: a.Other?
      ensures SameDetails(x, y) && Read(y, VolumeStatus) == Some("active")
      ensures Readable(clock) ==> MetaOf(y) == Meta(1, clock, Active, []) && Tidy(y)
    {
      EpochWritten(x, 1);
      y := x[Epoch := Decimal(1)];
      var text := FormatVectorClock(clock);
      if Readable(clock) { ClockWritten(y, clock, text); }
      y := y[VectorClock := text];
      StatusWritten(y, Active);
      y := y[VolumeStatus := "active"];
    }

    /** First half of ControllerPublishVolume when only a replica is present. */
    method Promote()
      requires Valid() && live.None? && replica.Some?
      modifies this`live, gossip`volumeEpochs
      ensures live.Some? && SameDetails(replica.value, live.value)
      ensures Read(live.value, VolumeStatus) == Some("active")
      ensures var m := MetaOf(replica.value);
        CleanKey(nodeId) && CanTick(m, nodeId) ==>
          && MetaOf(live.value) == Promoted(m, nodeId)
          && MetaOf(live.value) == Meta(m.epoch + 1, m.clock[nodeId := At(m.clock, nodeId) + 1], Active, m.published)
          && gossip.volumeEpochs
               == old(gossip.volumeEpochs)[volume := EpochInfo(m.epoch + 1, Tick(m.clock, nodeId), Active)]
    {
      var x, epoch, clock := PromoteXattrs(replica.value);
      live := Some(x);
      gossip.RegisterVolumeEpoch(volume, epoch, clock, Active);
    }

    /** The attributes of the promoted copy. */
    method PromoteXattrs(r: Xattrs) returns (y: Xattrs, epoch: nat, clock: Clock)
      ensures SameDetails(r, y) && Read(y, VolumeStatus) == Some("active")
      ensures CleanKey(nodeId) && CanTick(MetaOf(r), nodeId) ==>
        && MetaOf(y) == Promoted(MetaOf(r), nodeId)
        && epoch == MetaOf(r).epoch + 1
        && clock == Tick(MetaOf(r).clock, nodeId)
    {
      var x := CopyMetadata(r, r);
      y, epoch, clock := TickXattrs(x);
      assert SameDetails(r, x);
    }

    /** `increment_epoch` and the clock entry of this node, written back as text. */
    method TickXattrs(x: Xattrs) returns (y: Xattrs, epoch: nat, clock: Clock)
      ensures SameDetails(x, y) && Read(y, VolumeStatus) == Some("active")
      ensures CleanKey(nodeId) && CanTick(MetaOf(x), nodeId) ==>
        && MetaOf(y) == Promoted(MetaOf(x), nodeId)
        && epoch == MetaOf(x).epoch + 1
        && clock == Tick(MetaOf(x).clock, nodeId)
    {
      epoch := ReadEpoch(x) + 1;
      y := x[Epoch := Decimal(epoch)];
      QuorumWrite(x, Epoch, Decimal(epoch));
      if epoch < U64_LIMIT { EpochWritten(x, epoch); }
      y, clock := TickClock(y);
      y := Activate(y);
    }

    method Activate(x: Xattrs) returns (y: Xattrs)
      ensures SameDetails(x, y) && Read(y, VolumeStatus) == Some("active")
      ensures MetaOf(y) == MetaOf(x).(status := Active)
    {
      StatusWritten(x, Active);
      QuorumWrite(x, VolumeStatus, "active");
      y := x[VolumeStatus := "active"];
    }

    method TickClock(x: Xattrs) returns (y: Xattrs, clock: Clock)
      ensures SameDetails(x, y) && clock == Tick(ReadClock(x), nodeId)
      ensures CleanKey(nodeId) && clock[nodeId] < U64_LIMIT ==> MetaOf(y) == MetaOf(x).(clock := clock)
    {
      clock := ReadClock(x);
      clock := clock[nodeId := if nodeId in clock then clock[nodeId] + 1 else 1];
      assert clock == Tick(ReadClock(x), nodeId);
      var text := FormatVectorClock(clock);
      y := x[VectorClock := text];
      QuorumWrite(x, VectorClock, text);
      if CleanKey(nodeId) && clock[nodeId] < U64_LIMIT {
        ReadClockClean(x);
        TickIsReadable(ReadClock(x), nodeId);
        ClockWritten(x, clock, text);
      }
    }

    /** The attribute copy loop of a promotion touches no quorum attribute. */
    method CopyMetadata(from: Xattrs, dest: Xattrs) returns (x: Xattrs)
      ensures MetaOf(x) == MetaOf(dest)
      ensures forall name ::
        Read(x, Other(name)) == Read(if Other(name) in from && name in COPIED then from else dest, Other(name))
    {
      x := dest;
      var names := COPIED;
      for i := 0 to |names|
        invariant MetaOf(x) == MetaOf(dest)
        invariant forall name ::
          Read(x, Other(name)) == Read(if Other(name) in from && name in names[..i] then from else dest, Other(name))
      {
        assert names[..i + 1] == names[..i] + [names[i]];
        var a := Other(names[i]);
        if a in from {
          var value := Trim(from[a]);
          OtherWritten(x, names[i], value);
          TrimShape(from[a]);
          TrimShape(value);
          x := x[a := value];
        }
      }
      assert names[..|names|] == names;
    }

    /** ControllerPublishVolume, with the answers that arrived from the peers. Without a
        local copy or replica the request ends here (peer sync is not modelled). */
    method PublishVolume(target: NodeId, answers: map<NodeId, VoteResponse>) returns (reply: PublishReply)
      requires Valid()
      modifies this`live, gossip`volumeEpochs
      ensures reply == NotFound <==> old(live).None? && replica.None?
      ensures reply == NotFound ==> live == old(live) && gossip.volumeEpochs == old(gossip.volumeEpochs)
      ensures reply != NotFound ==> live.Some?
      ensures live.Some? ==> SameDetails(if old(live).Some? then old(live).value else replica.value, live.value)
      ensures reply.Attached? ==>
        && (reply.readonly <==> !Decide(gossip.peers.Keys, nodeId, answers).granted)
        && Read(live.value, VolumeStatus) == Some(if reply.readonly then "readonly" else "active")
      ensures reply == Refused ==> Read(live.value, VolumeStatus) == Some("conflict")
      ensures old(live).Some? ==> gossip.volumeEpochs == old(gossip.volumeEpochs)
      ensures old(live).Some? && Tidy(old(live).value) && CleanTarget(target) ==>
        && Tidy(live.value)
        && (MetaOf(live.value), reply)
          == PublishOn(MetaOf(old(live).value), target, Decide(gossip.peers.Keys, nodeId, answers))
      ensures
        && old(live).None? && replica.Some? && Tidy(replica.value) && CleanTarget(target)
        && CleanKey(nodeId) && CanTick(MetaOf(replica.value), nodeId) ==>
        var m := Promoted(MetaOf(replica.value), nodeId);
        && Tidy(live.value)
        && (MetaOf(live.value), reply) == PublishOn(m, target, Decide(gossip.peers.Keys, nodeId, answers))
        && gossip.volumeEpochs == old(gossip.volumeEpochs)[volume := EpochInfo(m.epoch, m.clock, Active)]
    {
      if live.None? {
        if replica.None? { return NotFound; }
        Promote();
      }
      reply := Attach(target, answers);
    }

    /** Second half of ControllerPublishVolume. */
    method Attach(target: NodeId, answers: map<NodeId, VoteResponse>) returns (reply: PublishReply)
      requires Valid() && live.Some?
      modifies this`live
      ensures live.Some? && reply != NotFound && SameDetails(old(live).value, live.value)
      ensures reply == Refused <==>
        ReadStatus(old(live).value) == Conflicted || Decide(gossip.peers.Keys, nodeId, answers).conflict
      ensures reply == Refused ==> Read(live.value, VolumeStatus) == Some("conflict")
      ensures reply.Attached? ==>
        && (reply.readonly <==> !Decide(gossip.peers.Keys, nodeId, answers).granted)
        && Read(live.value, VolumeStatus) == Some(if reply.readonly then "readonly" else "active")
      ensures Tidy(old(live).value) && CleanTarget(target) ==>
        && Tidy(live.value)
        && (MetaOf(live.value), reply)
          == PublishOn(MetaOf(old(live).value), target, Decide(gossip.peers.Keys, nodeId, answers))
    {
      var x := live.value;
      if ReadStatus(x) == Conflicted { return Refused; }
      var lease, _ := gossip.RequestQuorumLease(ReadEpoch(x), ReadClock(x), answers);
      if lease.conflict {
        StatusWritten(x, Conflicted);
        live := Some(x[VolumeStatus := "conflict"]);
        return Refused;
      }
      var status := if lease.granted then Active else ReadOnly;
      StatusWritten(x, status);
      x := x[VolumeStatus := StatusText(status)];
      x := AddPublishedNode(x, target);
      live := Some(x);
      reply := Attached(!lease.granted);
    }

    method AddPublishedNode(x: Xattrs, target: NodeId) returns (y: Xattrs)
      ensures SameDetails(x, y) && Read(y, VolumeStatus) == Read(x, VolumeStatus)
      ensures Tidy(x) && CleanTarget(target) ==>
        MetaOf(y) == MetaOf(x).(published := AddNode(ReadPublished(x), target)) && Tidy(y)
    {
      y := x;
      var nodes := ReadPublished(x);
      if target !in nodes {
        y := x[Published := Join(nodes + [target], ',')];
        if Tidy(x) && CleanTarget(target) {
          PublishedItemsClean(x);
          PublishedWritten(x, nodes + [target]);
        }
      }
    }

    method RemovePublishedNode(x: Xattrs, target: NodeId) returns (y: Xattrs)
      ensures SameDetails(x, y)
      ensures Tidy(x) ==> MetaOf(y) == MetaOf(x).(published := RemoveNode(ReadPublished(x), target)) && Tidy(y)
    {
      var remaining := KeepOthers(ReadPublished(x), target);
      if remaining == [] {
        PublishedRemoved(x);
        y := x - {Published};
      } else {
        y := x[Published := Join(remaining, ',')];
        if Tidy(x) {
          PublishedItemsClean(x);
          PublishedWritten(x, remaining);
        }
      }
    }

    method KeepOthers(nodes: seq<NodeId>, target: NodeId) returns (remaining: seq<NodeId>)
      ensures remaining == RemoveNode(nodes, target)
    {
      remaining := [];
      for i := 0 to |nodes|
        invariant remaining == RemoveNode(nodes[..i], target)
      {
        assert nodes[..i + 1][..i] == nodes[..i];
        if nodes[i] != target { remaining := remaining + [nodes[i]]; }
      }
      assert nodes[..|nodes|] == nodes;
    }

    /** ControllerUnpublishVolume (its final replication round is a step of its own). */
    method UnpublishVolume(target: NodeId)
      requires Valid()
      modifies this`live
      ensures live.Some? <==> old(live).Some?
      ensures live.Some? ==>
        SameDetails(old(live).value, live.value) && Read(live.value, VolumeStatus) == Some("active")
      ensures live.Some? && Tidy(old(live).value) ==>
        MetaOf(live.value) == UnpublishFrom(MetaOf(old(live).value), target) && Tidy(live.value)
    {
      if live.Some? {
        var x := RemovePublishedNode(live.value, target);
        StatusWritten(x, Active);
        live := Some(x[VolumeStatus := "active"]);
      }
    }

    /** The DeleteVolume arm of a peer's gossip service: registry entry and replica go. */
    method ReceiveDelete()
      requires Valid()
      modifies this`replica, gossip`volumeEpochs
      ensures replica == None && gossip.volumeEpochs == old(gossip.volumeEpochs) - {volume}
    {
      gossip.HandleDeleteVolume(volume);
      replica := None;
    }

    function NodeView(): Node
      reads this, gossip
    {
      Node(Decoded(live), Decoded(replica), gossip.Known(volume))
    }

    /** What the texts of this node can hold, and counters that can still tick. */
    predicate Clean()
      reads this
    {
      && CleanKey(nodeId)
      && (live.Some? ==> Tidy(live.value))
      && (replica.Some? ==> Tidy(replica.value) && CanTick(MetaOf(replica.value), nodeId))
    }

    /** Whatever reaches this node, its code on texts does what `Handle` says of the decoded
        node. */
    method Perform(input: Input)
      requires Valid()
      modifies this`live, this`replica, gossip`volumeEpochs
      ensures old(Clean()) && (input.Serve? ==> CleanRpc(input.rpc)) ==>
        NodeView() == Handle(old(NodeView()), nodeId, RequestOf(input, gossip.peers.Keys, nodeId))
    {
      match input {
        case CreateInput(d) => CreateVolume(d);
        case Serve(rpc) =>
          match rpc {
            case PublishRpc(t, answers) => var _ := PublishVolume(t, answers);
            case UnpublishRpc(t) => UnpublishVolume(t);
            case DeleteRpc(removed) => var _ := DeleteVolume(removed);
          }
        case PeerDelete => ReceiveDelete();
        case PeerConflict => gossip.HandleConflictDetected(volume);
      }
    }

    /** A live copy with a tidy list, or neither copy nor replica after a deletion. */
    predicate Settled()
      reads this
    {
      if live.Some? then Tidy(live.value) else replica.None?
    }

    /** One request of a run: on texts it does what it does to the decoded copy. */
    method ServeOne(rpc: Rpc)
      requires Valid()
      modifies this`live, this`replica, gossip`volumeEpochs
      ensures old(Settled()) && CleanRpc(rpc) ==>
        Settled() && Decoded(live) == Apply(old(Decoded(live)), OpOf(rpc, gossip.peers.Keys, nodeId))
    {
      match rpc {
        case PublishRpc(t, answers) => var _ := PublishVolume(t, answers);
        case UnpublishRpc(t) => UnpublishVolume(t);
        case DeleteRpc(removed) => var _ := DeleteVolume(removed);
      }
    }

    /** A run of requests on a live copy: the comma-joined text decodes, after every one of
        them, to exactly the nodes attached and not unpublished since; it is gone with the
        copy only when there were none. */
    method ServeAll(rpcs: seq<Rpc>)
      requires Valid()
      modifies this`live, this`replica, gossip`volumeEpochs
      ensures old(live).Some? && CleanRun(old(live).value, rpcs) ==>
        var m, ops := old(Decoded(live)), OpsOf(rpcs, gossip.peers.Keys, nodeId);
        && Decoded(live) == ApplyAll(m, ops)
        && Distinct(ListOf(Decoded(live)))
        && forall t :: t in ListOf(Decoded(live)) <==> HoldsVolume(m, ops, t)
    {
      ghost var m, peers := Decoded(live), gossip.peers.Keys;
      ghost var clean := live.Some? && CleanRun(live.value, rpcs);
      assert ApplyAll(m, OpsOf(rpcs[..0], peers, nodeId)) == m;
      for i := 0 to |rpcs|
        invariant clean ==> Settled() && Decoded(live) == ApplyAll(m, OpsOf(rpcs[..i], peers, nodeId))
      {
        OpsSnoc(m, rpcs, i, peers, nodeId);
        assert rpcs[i] in rpcs;
        ServeOne(rpcs[i]);
      }
      assert rpcs[..|rpcs|] == rpcs;
      if clean { ListIsExact(m, OpsOf(rpcs, peers, nodeId)); }
    }

    /** After such a run a delete goes through exactly when nobody holds the volume. */
    method ServeThenDelete(rpcs: seq<Rpc>, removed: bool) returns (ok: bool)
      requires Valid()
      modifies this`live, this`replica, gossip`volumeEpochs
      ensures old(live).Some? && CleanRun(old(live).value, rpcs) ==>
        (ok <==> forall t :: !HoldsVolume(old(Decoded(live)), OpsOf(rpcs, gossip.peers.Keys, nodeId), t))
    {
      ServeAll(rpcs);
      ghost var xs := ListOf(Decoded(live));
      assert xs != [] ==> xs[0] in xs;
      ok := DeleteVolume(removed);
    }

    /** DeleteVolume on this node; `removed` is whether `btrfs subvolume delete` worked.
        The node's own registry entry is not touched. */
    method DeleteVolume(removed: bool) returns (ok: bool)
      requires Valid()
      modifies this`live, this`replica
      ensures !ok <==> old(live).Some? && ReadPublished(old(live).value) != []
      ensures !ok || old(live).None? ==> live == old(live) && replica == old(replica)
      ensures ok && old(live).Some? ==> replica == None && live == (if removed then None else old(live))
    {
      if live.None? { return true; }
      var published := ReadPublished(live.value);
      if published != [] { return false; }
      replica := None;
      if removed { live := None; }
      ok := true;
    }
  }
}
