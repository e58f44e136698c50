/** What the controller does to one copy of a volume, on decoded metadata
    (crates/btrfs-csi/src/csi_controller.rs). */
module Volumes {
  import opened Options
  import opened Clocks
  import opened Gossip
  import opened Text

  /** The decoded quorum xattrs of a copy. */
  datatype Meta = Meta(epoch: nat, clock: Clock, status: Status, published: seq<NodeId>)

  datatype PublishReply = NotFound | Refused | Attached(readonly: bool)

  function Created(n: NodeId): Meta {
    Meta(1, map[n := 1], Active, [])
  }

  /** A replica becomes a live copy on node `n`: epoch and clock tick, status is reset,
      everything else comes along with the snapshot. */
  function Promoted(m: Meta, n: NodeId): Meta {
    Meta(m.epoch + 1, Tick(m.clock, n), Active, m.published)
  }

  function AddNode(xs: seq<NodeId>, t: NodeId): seq<NodeId> {
    if t in xs then xs else xs + [t]
  }

  function RemoveNode(xs: seq<NodeId>, t: NodeId): (r: seq<NodeId>)
    ensures forall x :: x in r <==> x in xs && x != t
    ensures t !in xs ==> r == xs
  {
    if xs == [] then [] else
      RemoveNode(xs[..|xs| - 1], t) + (if xs[|xs| - 1] == t then [] else [xs[|xs| - 1]])
  }

  /** The second half of ControllerPublishVolume, given the lease outcome. */
  function PublishOn(m: Meta, t: NodeId, lease: Lease): (Meta, PublishReply) {
    if m.status == Conflicted then (m, Refused)
    else if lease.conflict then (m.(status := Conflicted), Refused)
    else if !lease.granted then (m.(status := ReadOnly, published := AddNode(m.published, t)), Attached(true))
    else (m.(status := Active, published := AddNode(m.published, t)), Attached(false))
  }

  /** ControllerUnpublishVolume resets the status whatever it was. */
  function UnpublishFrom(m: Meta, t: NodeId): Meta {
    m.(status := Active, published := RemoveNode(m.published, t))
  }

  // ---------- what one node holds of a volume ----------

  /** The live copy, the received replica and the registry entry of a node. */
  datatype Node = Node(live: Option<Meta>, replica: Option<Meta>, entry: Option<EpochInfo>)

  /** What reaches a node: requests to its controller, and the gossip of peers. */
  datatype Request =
    | CreateHere
    | PublishHere(target: NodeId, lease: Lease)
    | UnpublishHere(target: NodeId)
    | DeleteHere(removed: bool)
    | DeletedByPeer
    | ConflictFromPeer

  function PromoteHere(x: Node, n: NodeId): Node {
    if x.live.Some? || x.replica.None? then x else
      var m := Promoted(x.replica.value, n);
      x.(live := Some(m), entry := Some(EpochInfo(m.epoch, m.clock, Active)))
  }

  function Handle(x: Node, n: NodeId, req: Request): Node {
    match req
    case CreateHere =>
      if x.live.Some? then x else x.(live := Some(Created(n)), entry := Some(EpochInfo(1, map[n := 1], Active)))
    case PublishHere(t, lease) =>
      var y := PromoteHere(x, n);
      if y.live.None? then y else y.(live := Some(PublishOn(y.live.value, t, lease).0))
    case UnpublishHere(t) =>
      if x.live.None? then x else x.(live := Some(UnpublishFrom(x.live.value, t)))
    case DeleteHere(removed) =>
      if x.live.None? || x.live.value.published != [] then x
      else x.(replica := None, live := if removed then None else x.live)
    case DeletedByPeer => x.(replica := None, entry := None)
    case ConflictFromPeer =>
      if x.entry.None? then x else x.(entry := Some(x.entry.value.(status := Conflicted)))
  }

  // ---------- the published list over whole runs ----------

  datatype CopyOp = Publish(target: NodeId, lease: Lease) | Unpublish(target: NodeId) | Remove(works: bool)

  /** DeleteVolume: refused while the list is not empty; `works` is whether the command does. */
  function DeleteOn(m: Meta, works: bool): Option<Meta> {
    if m.published == [] && works then None else Some(m)
  }

  /** One request on a copy, if it is there; without a copy all of them change nothing. */
  function Apply(copy: Option<Meta>, op: CopyOp): Option<Meta> {
    match copy
    case None => None
    case Some(m) =>
      match op
      case Publish(t, lease) => Some(PublishOn(m, t, lease).0)
      case Unpublish(t) => Some(UnpublishFrom(m, t))
      case Remove(works) => DeleteOn(m, works)
  }

  function ApplyAll(copy: Option<Meta>, ops: seq<CopyOp>): Option<Meta> {
    if ops == [] then copy else Apply(ApplyAll(copy, ops[..|ops| - 1]), ops[|ops| - 1])
  }

  function ListOf(copy: Option<Meta>): seq<NodeId> {
    match copy
    case None => []
    case Some(m) => m.published
  }

  /** Operation `i` was a publish for `t` that attached it. */
  ghost predicate AttachedAt(copy: Option<Meta>, ops: seq<CopyOp>, i: nat, t: NodeId)
    requires i < |ops|
  {
    var before := ApplyAll(copy, ops[..i]);
    && ops[i].Publish? && ops[i].target == t
    && before.Some? && PublishOn(before.value, t, ops[i].lease).1.Attached?
  }

  ghost predicate NoUnpublishFrom(ops: seq<CopyOp>, i: nat, t: NodeId) {
    forall j | i <= j < |ops| :: ops[j] != Unpublish(t)
  }

  /** `t` was attached by some operation, or listed at the start, and not unpublished since. */
  ghost predicate HoldsVolume(m: Option<Meta>, ops: seq<CopyOp>, t: NodeId) {
    || (t in ListOf(m) && NoUnpublishFrom(ops, 0, t))
    || exists i: nat | i < |ops| :: AttachedAt(m, ops, i, t) && NoUnpublishFrom(ops, i + 1, t)
  }

  lemma {:induction false} RemoveKeepsDistinct(xs: seq<NodeId>, t: NodeId)
    requires Distinct(xs)
    ensures Distinct(RemoveNode(xs, t))
  {
    if xs != [] {
      var init := xs[..|xs| - 1];
      RemoveKeepsDistinct(init, t);
      var r := RemoveNode(init, t);
      forall i | 0 <= i < |r| ensures r[i] != xs[|xs| - 1] {
        assert r[i] in init;
      }
    }
  }

  lemma HoldsVolumeStep(m: Option<Meta>, ops: seq<CopyOp>, op: CopyOp, t: NodeId)
    ensures HoldsVolume(m, ops + [op], t) <==>
      || AttachedAt(m, ops + [op], |ops|, t)
      || (op != Unpublish(t) && HoldsVolume(m, ops, t))
  {
    var all := ops + [op];
    assert all[|ops|] == op;
    forall i: nat | i < |ops| ensures AttachedAt(m, all, i, t) <==> AttachedAt(m, ops, i, t) {
      assert all[..i] == ops[..i];
    }
    forall i: nat | i <= |ops|
      ensures NoUnpublishFrom(all, i, t) <==> NoUnpublishFrom(ops, i, t) && op != Unpublish(t)
    {
      if NoUnpublishFrom(all, i, t) {
        forall j | i <= j < |ops| ensures ops[j] != Unpublish(t) { assert all[j] == ops[j]; }
      }
    }
    assert NoUnpublishFrom(all, |ops| + 1, t);
    if HoldsVolume(m, ops, t) && op != Unpublish(t) && !(t in ListOf(m) && NoUnpublishFrom(ops, 0, t)) {
      var i: nat :| i < |ops| && AttachedAt(m, ops, i, t) && NoUnpublishFrom(ops, i + 1, t);
      assert AttachedAt(m, all, i, t) && NoUnpublishFrom(all, i + 1, t);
    }
    if AttachedAt(m, all, |ops|, t) {
      assert HoldsVolume(m, all, t);
    }
  }

  lemma ListStep(copy: Option<Meta>, op: CopyOp, t: NodeId)
    ensures t in ListOf(Apply(copy, op)) <==>
      || (op.Publish? && op.target == t && copy.Some? && PublishOn(copy.value, t, op.lease).1.Attached?)
      || (op != Unpublish(t) && t in ListOf(copy))
  {
  }

  lemma {:induction false} ListStaysDistinct(m: Option<Meta>, ops: seq<CopyOp>)
    requires Distinct(ListOf(m))
    ensures Distinct(ListOf(ApplyAll(m, ops)))
  {
    if ops != [] {
      var init, op := ops[..|ops| - 1], ops[|ops| - 1];
      ListStaysDistinct(m, init);
      if op.Unpublish? { RemoveKeepsDistinct(ListOf(ApplyAll(m, init)), op.target); }
    }
  }

  /** In every run of publishes, unpublishes and deletes of a copy, the list holds exactly the
      nodes attached and not unpublished since, each once; a removed copy has none. */
  lemma {:induction false} PublishedListIsExact(m: Option<Meta>, ops: seq<CopyOp>, t: NodeId)
    requires Distinct(ListOf(m))
    ensures t in ListOf(ApplyAll(m, ops)) <==> HoldsVolume(m, ops, t)
    ensures Distinct(ListOf(ApplyAll(m, ops)))
  {
    ListStaysDistinct(m, ops);
    if ops == [] {
      assert NoUnpublishFrom(ops, 0, t);
    } else {
      var init, op := ops[..|ops| - 1], ops[|ops| - 1];
      assert ops == init + [op] && ops[..|init|] == init;
      PublishedListIsExact(m, init, t);
      HoldsVolumeStep(m, init, op, t);
      ListStep(ApplyAll(m, init), op, t);
    }
  }

  lemma ListIsExact(m: Option<Meta>, ops: seq<CopyOp>)
    requires Distinct(ListOf(m))
    ensures Distinct(ListOf(ApplyAll(m, ops)))
    ensures forall t :: t in ListOf(ApplyAll(m, ops)) <==> HoldsVolume(m, ops, t)
  {
    forall t ensures t in ListOf(ApplyAll(m, ops)) <==> HoldsVolume(m, ops, t) {
      PublishedListIsExact(m, ops, t);
    }
    PublishedListIsExact(m, ops, "");
  }

  /** The delete guard: after every run the volume may go exactly when no node holds it, and
      a delete whose command works then removes it. */
  lemma DeletableExactlyWhenNobodyHoldsIt(m: Option<Meta>, ops: seq<CopyOp>)
    requires Distinct(ListOf(m))
    ensures ListOf(ApplyAll(m, ops)) == [] <==> forall t :: !HoldsVolume(m, ops, t)
    ensures Apply(ApplyAll(m, ops), Remove(true)) == None <==> forall t :: !HoldsVolume(m, ops, t)
  {
    ListIsExact(m, ops);
    var xs := ListOf(ApplyAll(m, ops));
    assert xs != [] ==> xs[0] in xs;
  }
}
