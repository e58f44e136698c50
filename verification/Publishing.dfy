/** Publishing composed with votes and lineages: what a quorum publish detects in every
    run, and what it does not. */
module Publishing {
  import opened Options
  import opened Clocks
  import opened Gossip
  import opened Volumes
  import opened Cluster

  /** The answers of the peers in `reached`, computed from their registries. */
  function HonestAnswers(s: State, reached: set<NodeId>, clock: Clock): map<NodeId, VoteResponse> {
    map p | p in reached :: Vote(Known(s, p), p, clock)
  }

  /** Reply and new metadata of a publish through node `a` with the given answers. */
  function PublishThrough(
    s: State, a: NodeId, t: NodeId, peers: set<NodeId>, answers: map<NodeId, VoteResponse>): (Meta, PublishReply)
    requires a in s.live
  {
    PublishOn(s.live[a].meta, t, Decide(peers, a, answers))
  }

  /** The registry of `p` holds an event of `p` that forked from the live copy on `a`. While
      `p` has a live copy this is that copy's history; after a deletion it is the last one. */
  ghost predicate RemembersFork(s: State, p: NodeId, a: NodeId)
    requires a in s.live
  {
    p in s.registry && p in s.origin && Forked(s.origin[p], s.live[a].history)
  }

  /** Without deletions the remembered histories are those of the live copies. */
  lemma RememberedIsLive(steps: seq<Step>, p: NodeId, a: NodeId)
    requires DeletionFree(steps) && a in Run(steps).live
    ensures PromotionsSafe(steps)
    ensures var s := Run(steps);
      RemembersFork(s, p, a) <==> p in s.live && Forked(s.live[p].history, s.live[a].history)
  {
    DeletionFreeRegistry(steps);
    NoReturnIsSafe(steps);
    RunIsSound(steps);
    assert p in Run(steps).live <==> p in Run(steps).registry;
  }

  /** A vote reports a conflict exactly when the voter remembers a fork. */
  lemma VoteDetectsFork(steps: seq<Step>, a: NodeId, b: NodeId)
    requires PromotionsSafe(steps) && a in Run(steps).live
    ensures Vote(Known(Run(steps), b), b, Run(steps).live[a].meta.clock).conflict
       <==> RemembersFork(Run(steps), b, a)
  {
    var s := Run(steps);
    RunIsSound(steps);
    SeparateExactlyWhenSafe(steps);
    assert CopyOk(s.born, s.live[a]);
    if b in s.registry {
      SeparationDetects(s.born, s.origin[b], s.live[a].history);
    }
  }

  /** If `b`, a peer of `a`, remembers a fork from the copy on `a` and answers, then the
      publish is refused and leaves `a`'s copy in conflict, whatever the others answer. */
  lemma ForkedPeerForcesRefusal(
    steps: seq<Step>, a: NodeId, b: NodeId, t: NodeId, peers: set<NodeId>, answers: map<NodeId, VoteResponse>)
    requires PromotionsSafe(steps)
    requires a in Run(steps).live && RemembersFork(Run(steps), b, a)
    requires b in peers && b in answers
    requires answers[b] == Vote(Known(Run(steps), b), b, Run(steps).live[a].meta.clock)
    ensures PublishThrough(Run(steps), a, t, peers, answers).1 == Refused
    ensures PublishThrough(Run(steps), a, t, peers, answers).0.status == Conflicted
  {
    RunIsSound(steps);
    VoteDetectsFork(steps, a, b);
    assert b in Objecting(peers, a, answers);
  }

  /** The lease of a publish through `a` when the peers in `reached` answer honestly. */
  function LeaseFor(s: State, a: NodeId, peers: set<NodeId>, reached: set<NodeId>): Lease
    requires a in s.live
  {
    Decide(peers, a, HonestAnswers(s, reached, s.live[a].meta.clock))
  }

  /** Reply of that publish, and the step it makes. */
  function HonestReply(s: State, a: NodeId, t: NodeId, peers: set<NodeId>, reached: set<NodeId>): PublishReply
    requires a in s.live
  {
    PublishOn(s.live[a].meta, t, LeaseFor(s, a, peers, reached)).1
  }

  function PublishStep(s: State, a: NodeId, t: NodeId, peers: set<NodeId>, reached: set<NodeId>): Step
    requires a in s.live
  {
    Attach(a, t, LeaseFor(s, a, peers, reached))
  }

  /** Who objects and who grants among the peers that answer. */
  lemma HonestVotes(steps: seq<Step>, a: NodeId, peers: set<NodeId>, reached: set<NodeId>)
    requires PromotionsSafe(steps) && a in Run(steps).live
    ensures var s := Run(steps);
      var answers := HonestAnswers(s, reached, s.live[a].meta.clock);
      && (forall p :: p in Objecting(peers, a, answers) <==> p in peers * reached - {a} && RemembersFork(s, p, a))
      && Granting(peers, a, answers) == peers * reached - {a} - Objecting(peers, a, answers)
  {
    var s := Run(steps);
    forall p
      ensures var v := Vote(Known(s, p), p, s.live[a].meta.clock);
        (v.conflict <==> RemembersFork(s, p, a)) && (v.granted <==> !v.conflict)
    {
      VoteDetectsFork(steps, a, p);
      VoterGrantsExactlyWithoutConflict(steps, p, s.live[a].meta.clock);
    }
  }

  /** A publish is refused exactly when the copy is already in conflict or some peer that
      answered remembers a fork. */
  lemma RefusedExactlyWhenForkSeen(
    steps: seq<Step>, a: NodeId, t: NodeId, peers: set<NodeId>, reached: set<NodeId>)
    requires PromotionsSafe(steps) && a in Run(steps).live
    ensures HonestReply(Run(steps), a, t, peers, reached) == Refused <==>
      || Run(steps).live[a].meta.status == Conflicted
      || exists p | p in peers * reached - {a} :: RemembersFork(Run(steps), p, a)
  {
    HonestVotes(steps, a, peers, reached);
  }

  /** What it takes to be attached read-write: no stored conflict, no fork remembered by a
      peer that answers, and enough answers, whoever gives them. */
  ghost predicate MayWrite(s: State, a: NodeId, peers: set<NodeId>, reached: set<NodeId>)
    requires a in s.live
  {
    && s.live[a].meta.status != Conflicted
    && (forall p | p in peers * reached - {a} :: !RemembersFork(s, p, a))
    && 1 + |peers * reached - {a}| >= |peers| / 2 + 1
  }

  lemma ReadWriteExactly(steps: seq<Step>, a: NodeId, t: NodeId, peers: set<NodeId>, reached: set<NodeId>)
    requires PromotionsSafe(steps) && a in Run(steps).live
    ensures HonestReply(Run(steps), a, t, peers, reached) == Attached(false)
       <==> MayWrite(Run(steps), a, peers, reached)
  {
    var s := Run(steps);
    HonestVotes(steps, a, peers, reached);
    var objecting := Objecting(peers, a, HonestAnswers(s, reached, s.live[a].meta.clock));
    assert objecting == {} ==> peers * reached - {a} - objecting == peers * reached - {a};
  }

  /** The copy on `n` is published read-write on `t`. */
  predicate WritesAt(s: State, n: NodeId, t: NodeId) {
    n in s.live && s.live[n].meta.status == Active && t in s.live[n].meta.published
  }

  /** A publish on another node, or one that attaches, leaves every later reply as it was. */
  lemma PublishLeavesReplies(
    s: State, a: NodeId, t: NodeId, peersA: set<NodeId>, reachedA: set<NodeId>,
    b: NodeId, u: NodeId, peersB: set<NodeId>, reachedB: set<NodeId>)
    requires a in s.live && b in s.live
    requires a != b || HonestReply(s, a, t, peersA, reachedA).Attached?
    ensures var s1 := Next(s, PublishStep(s, a, t, peersA, reachedA));
      b in s1.live && HonestReply(s1, b, u, peersB, reachedB) == HonestReply(s, b, u, peersB, reachedB)
  {
    var s1 := Next(s, PublishStep(s, a, t, peersA, reachedA));
    assert s1.live[b].meta.clock == s.live[b].meta.clock;
    assert HonestAnswers(s1, reachedB, s.live[b].meta.clock) == HonestAnswers(s, reachedB, s.live[b].meta.clock);
  }

  /** A publish with reply read-write makes its node write, and keeps all other writers. */
  lemma PublishWrites(s: State, a: NodeId, t: NodeId, peers: set<NodeId>, reached: set<NodeId>)
    requires a in s.live && HonestReply(s, a, t, peers, reached) == Attached(false)
    ensures var s1 := Next(s, PublishStep(s, a, t, peers, reached));
      WritesAt(s1, a, t) && forall n, u | WritesAt(s, n, u) :: WritesAt(s1, n, u)
  {
  }

  /** The run `base` followed by a publish through `a` and one through `b`. */
  function TwoPublishes(
    base: seq<Step>, a: NodeId, t: NodeId, peersA: set<NodeId>, reachedA: set<NodeId>,
    b: NodeId, u: NodeId, peersB: set<NodeId>, reachedB: set<NodeId>): seq<Step>
    requires a in Run(base).live && b in Run(base).live
  {
    var s := Run(base);
    var s1 := Next(s, PublishStep(s, a, t, peersA, reachedA));
    base + [PublishStep(s, a, t, peersA, reachedA)] + [PublishStep(s1, b, u, peersB, reachedB)]
  }

  lemma TwoPublishesRun(
    base: seq<Step>, a: NodeId, t: NodeId, peersA: set<NodeId>, reachedA: set<NodeId>,
    b: NodeId, u: NodeId, peersB: set<NodeId>, reachedB: set<NodeId>)
    requires a in Run(base).live && b in Run(base).live
    ensures var s := Run(base);
      var s1 := Next(s, PublishStep(s, a, t, peersA, reachedA));
      Run(TwoPublishes(base, a, t, peersA, reachedA, b, u, peersB, reachedB))
        == Next(s1, PublishStep(s1, b, u, peersB, reachedB))
  {
    var s := Run(base);
    var first := PublishStep(s, a, t, peersA, reachedA);
    var s1 := Next(s, first);
    RunSnoc(base, first);
    RunSnoc(base + [first], PublishStep(s1, b, u, peersB, reachedB));
  }

  /** Two publishes after a run both reply read-write exactly when both copies may write
      before them, and then both do write afterwards. If the copies forked and are
      registered, neither side then reaches the other. So a grant excludes a forked writer
      exactly as far as it is reached, and never a writer on the same line. */
  lemma BothWriteExactly(
    base: seq<Step>, a: NodeId, t: NodeId, peersA: set<NodeId>, reachedA: set<NodeId>,
    b: NodeId, u: NodeId, peersB: set<NodeId>, reachedB: set<NodeId>)
    requires PromotionsSafe(base) && a in Run(base).live && b in Run(base).live
    ensures var s := Run(base);
      var s1 := Next(s, PublishStep(s, a, t, peersA, reachedA));
      var s2 := Run(TwoPublishes(base, a, t, peersA, reachedA, b, u, peersB, reachedB));
      var both := HonestReply(s, a, t, peersA, reachedA) == HonestReply(s1, b, u, peersB, reachedB) == Attached(false);
      && (both <==> MayWrite(s, a, peersA, reachedA) && MayWrite(s, b, peersB, reachedB))
      && (both ==> WritesAt(s2, a, t) && WritesAt(s2, b, u))
      && (both && Forked(s.live[a].history, s.live[b].history) ==>
            && (b in s.registry ==> b !in peersA * reachedA)
            && (a in s.registry ==> a !in peersB * reachedB))
  {
    var s := Run(base);
    var s1 := Next(s, PublishStep(s, a, t, peersA, reachedA));
    ReadWriteExactly(base, a, t, peersA, reachedA);
    ReadWriteExactly(base, b, u, peersB, reachedB);
    TwoPublishesRun(base, a, t, peersA, reachedA, b, u, peersB, reachedB);
    if HonestReply(s, a, t, peersA, reachedA) == Attached(false) {
      PublishLeavesReplies(s, a, t, peersA, reachedA, b, u, peersB, reachedB);
      PublishWrites(s, a, t, peersA, reachedA);
      if HonestReply(s1, b, u, peersB, reachedB) == Attached(false) {
        PublishWrites(s1, b, u, peersB, reachedB);
      }
    }
    if Forked(s.live[a].history, s.live[b].history) {
      ReachedForkForbids(base, a, peersA, reachedA, b);
      ReachedForkForbids(base, b, peersB, reachedB, a);
    }
  }

  lemma ReachedForkForbids(steps: seq<Step>, a: NodeId, peers: set<NodeId>, reached: set<NodeId>, b: NodeId)
    requires a in Run(steps).live && b in Run(steps).live
    requires Forked(Run(steps).live[a].history, Run(steps).live[b].history)
    ensures b in Run(steps).registry && b in peers * reached ==> !MayWrite(Run(steps), a, peers, reached)
  {
    RunIsSound(steps);
    assert b in Run(steps).registry ==> RemembersFork(Run(steps), b, a);
  }

  // ---------- how a conflict ends ----------

  predicate InConflict(s: State, n: NodeId) {
    n in s.live && s.live[n].meta.status == Conflicted
  }

  /** The steps that end a conflict on `n` while `published` is the list of its copy: an
      unpublish, or a delete that is not refused and whose command works. */
  predicate EndsConflict(step: Step, n: NodeId, published: seq<NodeId>) {
    step.node == n && (step.Detach? || (step.Delete? && step.removed && published == []))
  }

  lemma ConflictStep(s: State, step: Step, n: NodeId)
    requires InConflict(s, n) && s.events > 0
    ensures Next(s, step).events > 0
    ensures InConflict(Next(s, step), n) <==> !EndsConflict(step, n, s.live[n].meta.published)
    ensures InConflict(Next(s, step), n) ==> Next(s, step).live[n].meta.published == s.live[n].meta.published
  {
  }

  ghost predicate InConflictAfter(s: State, steps: seq<Step>, i: nat, n: NodeId)
    requires i <= |steps|
  {
    InConflict(RunFrom(s, steps[..i]), n)
  }

  ghost predicate InConflictThroughout(s: State, steps: seq<Step>, n: NodeId) {
    forall i | 0 <= i <= |steps| :: InConflictAfter(s, steps, i, n)
  }

  lemma ThroughoutSnoc(s: State, init: seq<Step>, last: Step, n: NodeId)
    ensures InConflictThroughout(s, init + [last], n) <==>
      InConflictThroughout(s, init, n) && InConflict(RunFrom(s, init + [last]), n)
  {
    var steps := init + [last];
    forall i: nat | i <= |init| ensures InConflictAfter(s, steps, i, n) <==> InConflictAfter(s, init, i, n) {
      assert steps[..i] == init[..i];
    }
    assert InConflictAfter(s, steps, |steps|, n) <==> InConflict(RunFrom(s, steps), n) by {
      assert steps[..|steps|] == steps;
    }
    if InConflictThroughout(s, steps, n) {
      assert InConflictAfter(s, steps, |steps|, n);
      forall i | 0 <= i <= |init| ensures InConflictAfter(s, init, i, n) { assert InConflictAfter(s, steps, i, n); }
    }
  }

  /** A conflict lasts through a run exactly when no step of it ends it; the list of the copy
      does not change meanwhile. */
  lemma {:induction false} ConflictLastsExactly(s: State, steps: seq<Step>, n: NodeId)
    requires InConflict(s, n) && s.events > 0
    ensures RunFrom(s, steps).events > 0
    ensures InConflictThroughout(s, steps, n) <==>
      forall step | step in steps :: !EndsConflict(step, n, s.live[n].meta.published)
    ensures InConflictThroughout(s, steps, n) ==>
      InConflict(RunFrom(s, steps), n) && RunFrom(s, steps).live[n].meta.published == s.live[n].meta.published
  {
    if steps != [] {
      var init, last := steps[..|steps| - 1], steps[|steps| - 1];
      assert steps == init + [last];
      ConflictLastsExactly(s, init, n);
      ThroughoutSnoc(s, init, last, n);
      if InConflictThroughout(s, init, n) { ConflictStep(RunFrom(s, init), last, n); }
      EventsStay(RunFrom(s, init), last);
    }
  }

  lemma EventsStay(s: State, step: Step)
    ensures Next(s, step).events >= s.events
  {
  }

  /** So until then every publish through the node is refused, whatever the peers answer. */
  lemma ConflictIsAbsorbing(
    s: State, steps: seq<Step>, n: NodeId, t: NodeId, peers: set<NodeId>, answers: map<NodeId, VoteResponse>)
    requires InConflict(s, n) && s.events > 0
    requires forall step | step in steps :: !EndsConflict(step, n, s.live[n].meta.published)
    ensures InConflict(RunFrom(s, steps), n)
    ensures PublishThrough(RunFrom(s, steps), n, t, peers, answers).1 == Refused
  {
    ConflictLastsExactly(s, steps, n);
  }

  // ---------- what is not detected ----------

  /** `a` creates the volume and `b` promotes a replica of it. */
  lemma OnePromotion(a: NodeId, b: NodeId) returns (steps: seq<Step>)
    requires a != b
    ensures DeletionFree(steps)
    ensures var first := Copy(Created(a), [Event(a, 0)]);
      var second := Copy(Promoted(Created(a), b), [Event(a, 0), Event(b, 1)]);
      Run(steps) == State(map[a := first, b := second], map[b := first],
                          map[a := EntryOf(first.meta), b := EntryOf(second.meta)], [first], 2,
                          map[a := first.history, b := second.history], {first.history, second.history})
  {
    var first := Copy(Created(a), [Event(a, 0)]);
    var r0: seq<Step> := [];
    var r1 := r0 + [Create(a)];
    RunSnoc(r0, Create(a));
    var r2 := r1 + [Snapshot(a, false)];
    RunSnoc(r1, Snapshot(a, false));
    var r3 := r2 + [Receive(b, 0)];
    RunSnoc(r2, Receive(b, 0));
    assert Run(r3) == State(map[a := first], map[b := first], map[a := EntryOf(first.meta)], [first], 1,
                            map[a := first.history], {first.history});
    steps := r3 + [Promote(b)];
    RunSnoc(r3, Promote(b));
    assert first.history + [Event(b, 1)] == [Event(a, 0), Event(b, 1)];
  }

  /** A grant is not exclusive along a lineage: in every cluster there is a run with a
      promotion after which the old and the new primary publish one after the other, each
      reaching everybody, and then both write. */
  lemma DominatedWriterIsGranted(cluster: set<NodeId>, a: NodeId, b: NodeId, t: NodeId, u: NodeId)
    returns (base: seq<Step>)
    requires a != b && a in cluster && b in cluster
    ensures DeletionFree(base) && a in Run(base).live && b in Run(base).live
    ensures Run(base).live[a].history < Run(base).live[b].history
    ensures var s := Run(TwoPublishes(base, a, t, cluster, cluster, b, u, cluster, cluster));
      WritesAt(s, a, t) && WritesAt(s, b, u)
  {
    base := OnePromotion(a, b);
    var s := Run(base);
    DeletionFreeRegistry(base);
    NoReturnIsSafe(base);
    assert s.live[a].history <= s.live[b].history;
    forall n, p | n in {a, b} ensures !RemembersFork(s, p, n) {
      assert p in s.registry ==> p == a || p == b;
    }
    assert cluster * cluster == cluster;
    assert |cluster - {a}| == |cluster| - 1 && |cluster - {b}| == |cluster| - 1;
    BothWriteExactly(base, a, t, cluster, cluster, b, u, cluster, cluster);
  }

  /** `b` and `c` both promote the replica they received from `a`. */
  lemma TwoPromotions(a: NodeId, b: NodeId, c: NodeId) returns (steps: seq<Step>)
    requires a != b && a != c && b != c
    ensures DeletionFree(steps)
    ensures var s := Run(steps);
      && s.live.Keys == s.registry.Keys == {a, b, c}
      && s.live[a] == Copy(Created(a), [Event(a, 0)])
      && s.live[b] == Copy(Promoted(Created(a), b), [Event(a, 0), Event(b, 1)])
      && s.live[c] == Copy(Promoted(Created(a), c), [Event(a, 0), Event(c, 2)])
  {
    var r := OnePromotion(a, b);
    var r1 := r + [Receive(c, 0)];
    RunSnoc(r, Receive(c, 0));
    steps := r1 + [Promote(c)];
    RunSnoc(r1, Promote(c));
    assert [Event(a, 0)] + [Event(c, 2)] == [Event(a, 0), Event(c, 2)];
  }

  /** The two forms of a peer map that knows the whole cluster. */
  predicate IsView(cluster: set<NodeId>, peers: set<NodeId>, n: NodeId) {
    peers == cluster || peers == cluster - {n}
  }

  /** Nor does a majority prevent forked writers: in every cluster of three or more nodes
      there is a run after which `b` and `c`, whose copies forked, publish one after the
      other, each reaching everybody but the other, and then both write, whether or not the
      peer maps hold the requesters themselves. */
  lemma MajorityDoesNotPreventForkedWriters(
    cluster: set<NodeId>, a: NodeId, b: NodeId, t: NodeId, peersB: set<NodeId>,
    c: NodeId, u: NodeId, peersC: set<NodeId>) returns (base: seq<Step>)
    requires {a, b, c} <= cluster && a != b && a != c && b != c
    requires IsView(cluster, peersB, b) && IsView(cluster, peersC, c)
    ensures DeletionFree(base) && b in Run(base).live && c in Run(base).live
    ensures Forked(Run(base).live[b].history, Run(base).live[c].history)
    ensures var s := Run(TwoPublishes(base, b, t, peersB, cluster - {b, c}, c, u, peersC, cluster - {b, c}));
      WritesAt(s, b, t) && WritesAt(s, c, u)
  {
    base := TwoPromotions(a, b, c);
    assert Run(base).live[b].history[1] != Run(base).live[c].history[1];
    DeletionFreeRegistry(base);
    NoReturnIsSafe(base);
    OthersGrant(base, cluster, a, b, c, peersB);
    OthersGrant(base, cluster, a, c, b, peersC);
    assert cluster - {c, b} == cluster - {b, c};
    BothWriteExactly(base, b, t, peersB, cluster - {b, c}, c, u, peersC, cluster - {b, c});
  }

  /** `n` and `m` have copies beside the one `a` created, and nobody else has. */
  lemma OthersGrant(
    steps: seq<Step>, cluster: set<NodeId>, a: NodeId, n: NodeId, m: NodeId, peers: set<NodeId>)
    requires DeletionFree(steps) && {a, n, m} <= cluster && a != n && a != m && n != m
    requires Run(steps).live.Keys == {a, n, m} && IsView(cluster, peers, n)
    requires Run(steps).live[a].history <= Run(steps).live[n].history
    requires Run(steps).live[n].meta.status != Conflicted
    ensures MayWrite(Run(steps), n, peers, cluster - {n, m})
  {
    var s, reached := Run(steps), cluster - {n, m};
    assert |reached| == |cluster| - 2 && a in reached;
    assert peers * reached - {n} == reached;
    SubsetSize(peers, cluster);
    SubsetSize({a}, reached);
    forall p | p in reached ensures !RemembersFork(s, p, n) {
      RememberedIsLive(steps, p, n);
    }
  }

  /** A conflict that a publish found: `c` forked and answers, so `b`'s publish is refused. */
  lemma ForkIsFound(cluster: set<NodeId>, a: NodeId, b: NodeId, c: NodeId, t: NodeId) returns (base: seq<Step>)
    requires {a, b, c} <= cluster && a != b && a != c && b != c
    ensures DeletionFree(base)
    ensures var s := Run(base);
      && s.live.Keys == {a, b, c} && s.live[a].history <= s.live[b].history
      && Forked(s.live[b].history, s.live[c].history) && s.live[b].meta.published == []
      && HonestReply(s, b, t, cluster, cluster) == Refused
      && InConflict(Next(s, PublishStep(s, b, t, cluster, cluster)), b)
  {
    base := TwoPromotions(a, b, c);
    var s := Run(base);
    assert s.live[b].history[1] != s.live[c].history[1];
    RememberedIsLive(base, c, b);
    RefusedExactlyWhenForkSeen(base, b, t, cluster, cluster);
    assert c in cluster * cluster - {b} && RemembersFork(s, c, b);
    RefusalLeavesConflict(s, b, t, cluster, cluster);
  }

  lemma RefusalLeavesConflict(s: State, n: NodeId, t: NodeId, peers: set<NodeId>, reached: set<NodeId>)
    requires n in s.live
    ensures HonestReply(s, n, t, peers, reached) == Refused
       <==> InConflict(Next(s, PublishStep(s, n, t, peers, reached)), n)
  {
  }

  /** And an unpublish on the same node forgets it: the copies are as forked as before, but
      a publish that does not reach `c` any more is attached read-write. */
  lemma UnpublishForgetsConflict(cluster: set<NodeId>, a: NodeId, b: NodeId, c: NodeId, t: NodeId)
    returns (base: seq<Step>, steps: seq<Step>)
    requires {a, b, c} <= cluster && a != b && a != c && b != c
    ensures DeletionFree(base) && b in Run(base).live && c in Run(base).live
    ensures steps == base + [PublishStep(Run(base), b, t, cluster, cluster)] + [Detach(b, t)]
    ensures InConflict(Next(Run(base), PublishStep(Run(base), b, t, cluster, cluster)), b)
    ensures var s := Run(steps);
      && b in s.live && c in s.live && Forked(s.live[b].history, s.live[c].history)
      && HonestReply(s, b, t, cluster, cluster - {b, c}) == Attached(false)
  {
    base := ForkIsFound(cluster, a, b, c, t);
    var first := PublishStep(Run(base), b, t, cluster, cluster);
    RunSnoc(base, first);
    steps := base + [first] + [Detach(b, t)];
    RunSnoc(base + [first], Detach(b, t));
    DeletionFreeRegistry(steps);
    NoReturnIsSafe(steps);
    OthersGrant(steps, cluster, a, b, c, cluster);
    ReadWriteExactly(steps, b, t, cluster, cluster - {b, c});
  }

  /** `a` creates the volume and publishes it on `t`. */
  lemma CreatedAndPublished(a: NodeId, t: NodeId) returns (steps: seq<Step>)
    ensures DeletionFree(steps) && forall step | step in steps && step.Attach? :: step.node == a
    ensures var s := Run(steps);
      && s.live.Keys == {a} && s.live[a].meta.published == [t]
      && s.replica == map[] && s.snapshots == []
  {
    var lease := Lease(true, 1, 1, false);
    var r0: seq<Step> := [];
    var r1 := r0 + [Create(a)];
    RunSnoc(r0, Create(a));
    assert Run(r1) == Birth(INIT, a, Copy(Created(a), [Event(a, 0)]));
    steps := r1 + [Attach(a, t, lease)];
    RunSnoc(r1, Attach(a, t, lease));
  }

  /** `a` creates the volume, publishes it on `t` and sends the copy to `b`. */
  lemma PublishedAndSent(a: NodeId, b: NodeId, t: NodeId) returns (steps: seq<Step>)
    requires a != b
    ensures DeletionFree(steps) && forall step | step in steps && step.Attach? :: step.node != b
    ensures b !in Run(steps).live && b in Run(steps).replica && Run(steps).replica[b].meta.published == [t]
  {
    var r2 := CreatedAndPublished(a, t);
    var r3 := r2 + [Snapshot(a, false)];
    RunSnoc(r2, Snapshot(a, false));
    steps := r3 + [Receive(b, 0)];
    RunSnoc(r3, Receive(b, 0));
  }

  /** A promoted copy inherits the published list: `b` never attached `t`, yet lists it and
      refuses to delete the volume. */
  lemma PromotionInheritsList(a: NodeId, b: NodeId, t: NodeId, notified: set<NodeId>) returns (steps: seq<Step>)
    requires a != b
    ensures DeletionFree(steps)
    ensures forall step | step in steps && step.Attach? :: step.node != b
    ensures b in Run(steps).live && Run(steps).live[b].meta.published == [t]
    ensures forall removed :: Next(Run(steps), Delete(b, notified, removed)) == Run(steps)
  {
    var r := PublishedAndSent(a, b, t);
    steps := r + [Promote(b)];
    RunSnoc(r, Promote(b));
  }

  /** The check on promotions is needed: `b` promotes, a snapshot of its copy is taken, it
      deletes, receives the original again and promotes again. The new copy and the old
      snapshot forked, but their clocks are equal. */
  lemma ForkMissedAfterDeletion(a: NodeId, b: NodeId) returns (steps: seq<Step>, c: Copy, d: Copy)
    requires a != b
    ensures IsCopy(Run(steps), c) && IsCopy(Run(steps), d)
    ensures Forked(c.history, d.history) && !HasConflict(c.meta.clock, d.meta.clock)
    ensures !PromotionsSafe(steps)
  {
    var r := OnePromotion(a, b);
    var s := Run(r);
    d := s.live[b];
    var r1 := r + [Snapshot(b, false)];
    RunSnoc(r, Snapshot(b, false));
    var r2 := r1 + [Delete(b, {}, true)];
    RunSnoc(r1, Delete(b, {}, true));
    var r3 := r2 + [Receive(b, 0)];
    RunSnoc(r2, Receive(b, 0));
    steps := r3 + [Promote(b)];
    RunSnoc(r3, Promote(b));
    c := Run(steps).live[b];
    assert d in Run(steps).snapshots;
    assert c.history == [Event(a, 0), Event(b, 2)];
    assert c.history[1] != d.history[1];
    ConflictIsIncomparability(c.meta.clock, d.meta.clock);
    if PromotionsSafe(steps) { ConflictExactlyWhenForked(steps, c, d); }
  }
}
