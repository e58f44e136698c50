/** All copies of one volume across a cluster of any size: creation, asynchronous
    replication, promotion, publishing and deletion as a transition system. */
module Cluster {
  import opened Options
  import opened Clocks
  import opened Gossip
  import opened Volumes

  /** One creation or promotion; the stamp tells apart two events of the same node. */
  datatype Event = Event(node: NodeId, stamp: nat)

  /** A copy and the events it descends from, oldest first. The history is an observer:
      no operation looks at it. */
  datatype Copy = Copy(meta: Meta, history: seq<Event>)

  datatype State = State(
    live: map<NodeId, Copy>,           // subvolume in the data directory
    replica: map<NodeId, Copy>,        // received replica in the snapshot directory
    registry: map<NodeId, EpochInfo>,  // the gossip registry entry
    snapshots: seq<Copy>,              // send snapshots taken so far, delivered at any later time
    events: nat,                       // observers: creations and promotions so far,
    origin: map<NodeId, seq<Event>>,   //   the history ending in a node's latest one,
    born: set<seq<Event>>)             //   and all histories ever created

  datatype Step =
    | Create(node: NodeId)
    | Snapshot(node: NodeId, ofReplica: bool)
    | Receive(node: NodeId, index: nat)
    | Promote(node: NodeId)
    | Attach(node: NodeId, target: NodeId, lease: Lease)
    | Detach(node: NodeId, target: NodeId)
    | Delete(node: NodeId, notified: set<NodeId>, removed: bool)
    | ConflictNotice(node: NodeId)

  const INIT := State(map[], map[], map[], [], 0, map[], {})

  function EntryOf(m: Meta): EpochInfo {
    EpochInfo(m.epoch, m.clock, Active)
  }

  function PromotedCopy(s: State, n: NodeId): Copy
    requires n in s.replica
  {
    Copy(Promoted(s.replica[n].meta, n), s.replica[n].history + [Event(n, s.events)])
  }

  /** Node `n` gets the live copy `c` and registers it. */
  function Birth(s: State, n: NodeId, c: Copy): State {
    s.(live := s.live[n := c], registry := s.registry[n := EntryOf(c.meta)],
       events := s.events + 1, origin := s.origin[n := c.history], born := s.born + {c.history})
  }

  /** A publish on `n` promotes only when there is a replica and no live copy. */
  predicate Promotes(s: State, n: NodeId) {
    n !in s.live && n in s.replica
  }

  /** A step that the source answers with an error leaves the state as it is. A volume id
      is freshly drawn, so it is created once. */
  function Next(s: State, step: Step): State {
    match step
    case Create(n) =>
      if s.events != 0 then s else Birth(s, n, Copy(Created(n), [Event(n, 0)]))
    case Snapshot(n, ofReplica) =>
      if !ofReplica && n in s.live then s.(snapshots := s.snapshots + [s.live[n]])
      else if ofReplica && n in s.replica then s.(snapshots := s.snapshots + [s.replica[n]])
      else s
    case Receive(n, i) =>
      if i < |s.snapshots| then s.(replica := s.replica[n := s.snapshots[i]]) else s
    case Promote(n) =>
      if Promotes(s, n) then Birth(s, n, PromotedCopy(s, n)) else s
    case Attach(n, t, lease) =>
      if n !in s.live then s else
        s.(live := s.live[n := s.live[n].(meta := PublishOn(s.live[n].meta, t, lease).0)])
    case Detach(n, t) =>
      if n !in s.live then s else
        s.(live := s.live[n := s.live[n].(meta := UnpublishFrom(s.live[n].meta, t))])
    case Delete(n, notified, removed) =>
      if n !in s.live || s.live[n].meta.published != [] then s else
        s.(live := if removed then s.live - {n} else s.live,
           replica := s.replica - (notified + {n}),
           registry := s.registry - (notified - {n}))
    case ConflictNotice(n) =>
      if n !in s.registry then s else
        s.(registry := s.registry[n := s.registry[n].(status := Conflicted)])
  }

  function RunFrom(s: State, steps: seq<Step>): State {
    if steps == [] then s else Next(RunFrom(s, steps[..|steps| - 1]), steps[|steps| - 1])
  }

  function Run(steps: seq<Step>): State {
    RunFrom(INIT, steps)
  }

  ghost predicate IsCopy(s: State, c: Copy) {
    || (exists n | n in s.live :: s.live[n] == c)
    || (exists n | n in s.replica :: s.replica[n] == c)
    || c in s.snapshots
  }

  function Known(s: State, n: NodeId): Option<EpochInfo> {
    if n in s.registry then Some(s.registry[n]) else None
  }

  /** Two copies forked when neither descends from the other. */
  predicate Forked(h: seq<Event>, k: seq<Event>) {
    !(h <= k) && !(k <= h)
  }

  // ---------- what every run keeps ----------

  function ClockOf(h: seq<Event>): Clock {
    if h == [] then map[] else Tick(ClockOf(h[..|h| - 1]), h[|h| - 1].node)
  }

  ghost predicate CopyOk(born: set<seq<Event>>, c: Copy) {
    && c.history in born
    && c.meta.epoch == |c.history|
    && c.meta.clock == ClockOf(c.history)
  }

  ghost predicate CopiesOk(s: State) {
    && (forall n | n in s.live :: CopyOk(s.born, s.live[n]))
    && (forall n | n in s.replica :: CopyOk(s.born, s.replica[n]))
    && (forall c | c in s.snapshots :: CopyOk(s.born, c))
  }

  /** Histories are not empty, and every ancestor of a history was born too. */
  ghost predicate PrefixClosed(born: set<seq<Event>>) {
    && [] !in born
    && forall h, i | h in born && 1 <= i <= |h| :: Ancestor(h, i) in born
  }

  /** The first `i` events of a history. */
  function Ancestor(h: seq<Event>, i: nat): seq<Event>
    requires i <= |h|
  {
    h[..i]
  }

  ghost predicate BornOk(s: State) {
    && PrefixClosed(s.born)
    && (forall h | h in s.born :: |h| <= s.events && forall e | e in h :: e.stamp < s.events)
  }

  /** The live copy and the registry entry of a node are those of its latest event. */
  ghost predicate OriginOk(s: State) {
    && (forall n | n in s.origin :: s.origin[n] in s.born && s.origin[n] != [] && Last(s.origin[n]) == n)
    && (forall n | n in s.live :: n in s.origin && s.live[n].history == s.origin[n])
    && (forall n | n in s.registry :: n in s.origin &&
          s.registry[n].epoch == |s.origin[n]| && s.registry[n].clock == ClockOf(s.origin[n]))
  }

  ghost predicate Sound(s: State) {
    CopiesOk(s) && BornOk(s) && OriginOk(s)
  }

  function Last(h: seq<Event>): NodeId
    requires h != []
  {
    h[|h| - 1].node
  }

  function Parent(h: seq<Event>): seq<Event>
    requires h != []
  {
    h[..|h| - 1]
  }

  lemma {:induction false} TotalOfHistory(h: seq<Event>)
    ensures Total(ClockOf(h)) == |h|
  {
    if h != [] {
      TotalOfHistory(h[..|h| - 1]);
      TotalTick(ClockOf(h[..|h| - 1]), h[|h| - 1].node);
    }
  }

  lemma ClockOfSnoc(h: seq<Event>, e: Event)
    ensures ClockOf(h + [e]) == Tick(ClockOf(h), e.node)
  {
    assert (h + [e])[..|h|] == h;
  }

  lemma BirthKeepsBorn(s: State, n: NodeId, c: Copy, parent: seq<Event>)
    requires BornOk(s) && (parent == [] || parent in s.born)
    requires c.history == parent + [Event(n, s.events)]
    ensures BornOk(Birth(s, n, c))
  {
    var h := c.history;
    var born := Birth(s, n, c).born;
    forall i | 1 <= i <= |h| ensures Ancestor(h, i) in born {
      if i <= |parent| { assert h[..i] == Ancestor(parent, i); } else { assert h[..i] == h; }
    }
    assert forall e | e in h :: e.stamp < s.events + 1;
  }

  lemma BirthKeepsCopies(s: State, n: NodeId, c: Copy)
    requires CopiesOk(s) && c.meta.epoch == |c.history| && c.meta.clock == ClockOf(c.history)
    ensures CopiesOk(Birth(s, n, c))
  {
  }

  lemma BirthKeepsOrigin(s: State, n: NodeId, c: Copy)
    requires OriginOk(s) && c.history != [] && Last(c.history) == n
    requires c.meta.epoch == |c.history| && c.meta.clock == ClockOf(c.history)
    ensures OriginOk(Birth(s, n, c))
  {
  }

  lemma BirthIsSound(s: State, n: NodeId, c: Copy, parent: seq<Event>)
    requires Sound(s) && (parent == [] || parent in s.born)
    requires c.history == parent + [Event(n, s.events)]
    requires c.meta.epoch == |c.history| && c.meta.clock == ClockOf(c.history)
    ensures Sound(Birth(s, n, c))
  {
    BirthKeepsBorn(s, n, c, parent);
    BirthKeepsCopies(s, n, c);
    BirthKeepsOrigin(s, n, c);
  }

  lemma ClockOfCreation(n: NodeId)
    ensures ClockOf([Event(n, 0)]) == Created(n).clock
    ensures [Event(n, 0)] == [] + [Event(n, 0)]
  {
    ClockOfSnoc([], Event(n, 0));
  }

  lemma CreateIsSound(s: State, n: NodeId)
    requires Sound(s)
    ensures Sound(Next(s, Create(n)))
  {
    if s.events == 0 {
      ClockOfCreation(n);
      BirthIsSound(s, n, Copy(Created(n), [Event(n, 0)]), []);
    }
  }

  lemma PromoteIsSound(s: State, n: NodeId)
    requires Sound(s)
    ensures Sound(Next(s, Promote(n)))
  {
    if Promotes(s, n) {
      var h := s.replica[n].history;
      ClockOfSnoc(h, Event(n, s.events));
      BirthIsSound(s, n, PromotedCopy(s, n), h);
    }
  }

  lemma DeleteIsSound(s: State, n: NodeId, notified: set<NodeId>, removed: bool)
    requires Sound(s)
    ensures Sound(Next(s, Delete(n, notified, removed)))
  {
  }

  lemma SnapshotIsSound(s: State, n: NodeId, ofReplica: bool)
    requires Sound(s)
    ensures Sound(Next(s, Snapshot(n, ofReplica)))
  {
  }

  lemma ReceiveIsSound(s: State, n: NodeId, i: nat)
    requires Sound(s)
    ensures Sound(Next(s, Receive(n, i)))
  {
  }

  lemma AttachIsSound(s: State, n: NodeId, t: NodeId, lease: Lease)
    requires Sound(s)
    ensures Sound(Next(s, Attach(n, t, lease)))
  {
  }

  lemma DetachIsSound(s: State, n: NodeId, t: NodeId)
    requires Sound(s)
    ensures Sound(Next(s, Detach(n, t)))
  {
  }

  lemma NoticeIsSound(s: State, n: NodeId)
    requires Sound(s)
    ensures Sound(Next(s, ConflictNotice(n)))
  {
  }

  lemma StepIsSound(s: State, step: Step)
    requires Sound(s)
    ensures Sound(Next(s, step))
    ensures Next(s, step).events <= s.events + 1
  {
    match step
    case Create(n) => CreateIsSound(s, n);
    case Promote(n) => PromoteIsSound(s, n);
    case Delete(n, notified, removed) => DeleteIsSound(s, n, notified, removed);
    case Attach(n, t, lease) => AttachIsSound(s, n, t, lease);
    case Detach(n, t) => DetachIsSound(s, n, t);
    case ConflictNotice(n) => NoticeIsSound(s, n);
    case Snapshot(n, ofReplica) => SnapshotIsSound(s, n, ofReplica);
    case Receive(n, i) => ReceiveIsSound(s, n, i);
  }

  /** In every run each copy's clock counts the events of its history, its epoch is their
      number, registry and live copy agree, and no epoch exceeds the number of steps. */
  lemma {:induction false} RunIsSound(steps: seq<Step>)
    ensures Sound(Run(steps))
    ensures Run(steps).events <= |steps|
  {
    if steps != [] {
      RunIsSound(steps[..|steps| - 1]);
      StepIsSound(Run(steps[..|steps| - 1]), steps[|steps| - 1]);
    }
  }

  lemma CopyIsOk(steps: seq<Step>, c: Copy)
    requires IsCopy(Run(steps), c)
    ensures CopyOk(Run(steps).born, c) && 1 <= |c.history| <= |steps|
  {
    RunIsSound(steps);
  }

  /** The epoch of any copy is the sum of its clock entries, at least 1, and bounded by the
      length of the run (so 64-bit counters cannot overflow in fewer than 2^64 steps). */
  lemma EpochIsClockTotal(steps: seq<Step>, c: Copy)
    requires IsCopy(Run(steps), c)
    ensures 1 <= c.meta.epoch <= |steps|
    ensures c.meta.epoch == Total(c.meta.clock)
  {
    CopyIsOk(steps, c);
    TotalOfHistory(c.history);
  }

  /** In every reachable state the registry entry of a node with a live copy repeats that
      copy's epoch and clock. */
  lemma RegistryMatchesLiveCopy(steps: seq<Step>, n: NodeId)
    requires n in Run(steps).live && n in Run(steps).registry
    ensures Run(steps).registry[n].epoch == Run(steps).live[n].meta.epoch
    ensures Run(steps).registry[n].clock == Run(steps).live[n].meta.clock
  {
    RunIsSound(steps);
  }

  /** A voter that knows the volume grants exactly when it sees no conflict. */
  lemma VoterGrantsExactlyWithoutConflict(steps: seq<Step>, voter: NodeId, clock: Clock)
    ensures var v := Vote(Known(Run(steps), voter), voter, clock); v.granted <==> !v.conflict
  {
    RunIsSound(steps);
  }

  // ---------- what the steps do at each node ----------

  function MetaIf(copies: map<NodeId, Copy>, n: NodeId): Option<Meta> {
    if n in copies then Some(copies[n].meta) else None
  }

  function NodeOf(s: State, n: NodeId): Node {
    Node(MetaIf(s.live, n), MetaIf(s.replica, n), Known(s, n))
  }

  /** The steps on `n` are what its node does on the request; a publish is two of them. */
  lemma CreateIsRequest(s: State, n: NodeId)
    requires s.events == 0 && n !in s.live
    ensures NodeOf(Next(s, Create(n)), n) == Handle(NodeOf(s, n), n, CreateHere)
  {
  }

  lemma PublishIsRequest(s: State, n: NodeId, t: NodeId, lease: Lease)
    ensures NodeOf(Next(Next(s, Promote(n)), Attach(n, t, lease)), n)
         == Handle(NodeOf(s, n), n, PublishHere(t, lease))
  {
    var s1 := Next(s, Promote(n));
    assert NodeOf(s1, n) == PromoteHere(NodeOf(s, n), n);
  }

  lemma UnpublishIsRequest(s: State, n: NodeId, t: NodeId)
    ensures NodeOf(Next(s, Detach(n, t)), n) == Handle(NodeOf(s, n), n, UnpublishHere(t))
  {
  }

  lemma DeleteIsRequest(s: State, n: NodeId, notified: set<NodeId>, removed: bool)
    ensures NodeOf(Next(s, Delete(n, notified, removed)), n) == Handle(NodeOf(s, n), n, DeleteHere(removed))
  {
  }

  lemma NoticeIsRequest(s: State, n: NodeId)
    ensures NodeOf(Next(s, ConflictNotice(n)), n) == Handle(NodeOf(s, n), n, ConflictFromPeer)
  {
  }

  /** A delete that is not refused does to each notified peer what its gossip arm does. */
  lemma DeleteIsHandledByPeers(s: State, n: NodeId, notified: set<NodeId>, removed: bool, p: NodeId)
    requires n in s.live && s.live[n].meta.published == [] && p in notified && p != n
    ensures NodeOf(Next(s, Delete(n, notified, removed)), p) == Handle(NodeOf(s, p), p, DeletedByPeer)
  {
  }

  /** Nobody else notices: a step changes its own node and, for a delete, the notified. */
  lemma OthersAreUntouched(s: State, step: Step, p: NodeId)
    requires p != step.node && (step.Delete? ==> p !in step.notified)
    ensures NodeOf(Next(s, step), p) == NodeOf(s, p)
  {
  }

  /** Exactly what a delete leaves behind, node by node. */
  lemma DeleteExactly(s: State, n: NodeId, notified: set<NodeId>, removed: bool, p: NodeId)
    ensures var t := Next(s, Delete(n, notified, removed));
      if n !in s.live || s.live[n].meta.published != [] then t == s else
        && Known(t, p) == (if p in notified && p != n then None else Known(s, p))
        && (p in t.replica <==> p in s.replica && p != n && p !in notified)
        && (p in t.live <==> p in s.live && !(p == n && removed))
        && (p in t.replica ==> t.replica[p] == s.replica[p])
        && (p in t.live ==> t.live[p] == s.live[p])
        && t.snapshots == s.snapshots
  {
  }

  /** Exactly what sending and receiving do: snapshots of live copies and of replicas can be
      delivered to any node at any later time, and replace its replica only. */
  lemma SendingExactly(s: State, n: NodeId, m: NodeId, steps: seq<Step>)
    ensures n in s.live ==>
      Next(Next(s, Snapshot(n, false)), Receive(m, |s.snapshots|))
        == s.(snapshots := s.snapshots + [s.live[n]], replica := s.replica[m := s.live[n]])
    ensures n in s.replica ==>
      Next(Next(s, Snapshot(n, true)), Receive(m, |s.snapshots|))
        == s.(snapshots := s.snapshots + [s.replica[n]], replica := s.replica[m := s.replica[n]])
    ensures s.snapshots <= RunFrom(s, steps).snapshots
  {
    SnapshotsStay(s, steps);
  }

  lemma {:induction false} SnapshotsStay(s: State, steps: seq<Step>)
    ensures s.snapshots <= RunFrom(s, steps).snapshots
  {
    if steps != [] {
      SnapshotsStay(s, steps[..|steps| - 1]);
      SnapshotsGrow(RunFrom(s, steps[..|steps| - 1]), steps[|steps| - 1]);
    }
  }

  lemma SnapshotsGrow(s: State, step: Step)
    ensures s.snapshots <= Next(s, step).snapshots
  {
  }

  // ---------- clocks and histories ----------

  function NodesOf(h: seq<Event>): multiset<NodeId> {
    if h == [] then multiset{} else NodesOf(h[..|h| - 1]) + multiset{h[|h| - 1].node}
  }

  lemma {:induction false} ClockCounts(h: seq<Event>, n: NodeId)
    ensures At(ClockOf(h), n) == NodesOf(h)[n]
  {
    if h != [] { ClockCounts(h[..|h| - 1], n); }
  }

  lemma LeIsInclusion(h: seq<Event>, k: seq<Event>)
    ensures Le(ClockOf(h), ClockOf(k)) <==> NodesOf(h) <= NodesOf(k)
  {
    LeIsPointwise(ClockOf(h), ClockOf(k));
    forall n ensures At(ClockOf(h), n) == NodesOf(h)[n] && At(ClockOf(k), n) == NodesOf(k)[n] {
      ClockCounts(h, n);
      ClockCounts(k, n);
    }
    if Le(ClockOf(h), ClockOf(k)) {
      forall n ensures NodesOf(h)[n] <= NodesOf(k)[n] {
        assert At(ClockOf(h), n) <= At(ClockOf(k), n);
      }
    }
  }

  lemma {:induction false} PrefixIsIncluded(h: seq<Event>, k: seq<Event>)
    requires h <= k
    ensures NodesOf(h) <= NodesOf(k)
    decreases |k|
  {
    if |h| < |k| {
      PrefixIsIncluded(h, k[..|k| - 1]);
    } else {
      assert h == k;
    }
  }

  /** In every run, deletions included: two clocks conflict exactly when neither history's
      multiset of ticking nodes contains the other's. */
  lemma ConflictIsIncomparableTicks(steps: seq<Step>, c: Copy, d: Copy)
    requires IsCopy(Run(steps), c) && IsCopy(Run(steps), d)
    ensures HasConflict(c.meta.clock, d.meta.clock) <==>
      !(NodesOf(c.history) <= NodesOf(d.history)) && !(NodesOf(d.history) <= NodesOf(c.history))
  {
    CopyIsOk(steps, c);
    CopyIsOk(steps, d);
    ConflictIsIncomparability(c.meta.clock, d.meta.clock);
    LeIsInclusion(c.history, d.history);
    LeIsInclusion(d.history, c.history);
  }

  /** No false alarm in any run: a conflict means a fork. */
  lemma ConflictMeansFork(steps: seq<Step>, c: Copy, d: Copy)
    requires IsCopy(Run(steps), c) && IsCopy(Run(steps), d)
    requires HasConflict(c.meta.clock, d.meta.clock)
    ensures Forked(c.history, d.history)
  {
    ConflictIsIncomparableTicks(steps, c, d);
    if c.history <= d.history { PrefixIsIncluded(c.history, d.history); }
    if d.history <= c.history { PrefixIsIncluded(d.history, c.history); }
  }

  /** Epoch and clock grow strictly along a lineage. */
  lemma LineageGrows(steps: seq<Step>, c: Copy, d: Copy)
    requires IsCopy(Run(steps), c) && IsCopy(Run(steps), d) && c.history < d.history
    ensures c.meta.epoch < d.meta.epoch
    ensures Le(c.meta.clock, d.meta.clock) && !Le(d.meta.clock, c.meta.clock)
  {
    CopyIsOk(steps, c);
    CopyIsOk(steps, d);
    PrefixIsIncluded(c.history, d.history);
    LeIsInclusion(c.history, d.history);
    LeIsInclusion(d.history, c.history);
    SizeOfNodes(c.history);
    SizeOfNodes(d.history);
    assert NodesOf(d.history) <= NodesOf(c.history) ==> NodesOf(c.history) == NodesOf(d.history);
  }

  lemma {:induction false} SizeOfNodes(h: seq<Event>)
    ensures |NodesOf(h)| == |h|
  {
    if h != [] { SizeOfNodes(h[..|h| - 1]); }
  }

  // ---------- when detection is exact ----------

  /** Clocks tell exactly which of these histories forked. */
  ghost predicate DetectsForks(born: set<seq<Event>>) {
    forall x, y | x in born && y in born :: HasConflict(ClockOf(x), ClockOf(y)) <==> Forked(x, y)
  }

  /** Two events of one node along one line of descent descend from each other. */
  ghost predicate Separate(born: set<seq<Event>>) {
    forall x, y | x in born && y in born && x != [] && y != [] ::
      Last(x) == Last(y) && Parent(x) <= Parent(y) ==> x <= y
  }

  lemma {:induction false} LaterTick(h: seq<Event>, k: seq<Event>, n: NodeId) returns (j: nat)
    requires h <= k && NodesOf(h)[n] < NodesOf(k)[n]
    ensures |h| <= j < |k| && k[j].node == n
    decreases |k|
  {
    if h == k {
      assert false;
    } else if Last(k) == n {
      j := |k| - 1;
    } else {
      j := LaterTick(h, Parent(k), n);
    }
  }

  /** A history that ticks no node more often than `y` does is an ancestor of `y`. */
  lemma {:induction false} IncludedIsPrefix(born: set<seq<Event>>, x: seq<Event>, y: seq<Event>)
    requires PrefixClosed(born) && Separate(born) && x in born && y in born
    requires NodesOf(x) <= NodesOf(y)
    ensures x <= y
    decreases |x|
  {
    var s, n := Parent(x), Last(x);
    if s != [] {
      assert s == Ancestor(x, |x| - 1);
      IncludedIsPrefix(born, s, y);
    }
    TickAfterParent(x);
    var j := LaterTick(s, y, n);
    ReachedByTick(born, x, y, j);
  }

  lemma TickAfterParent(x: seq<Event>)
    requires x != []
    ensures NodesOf(x)[Last(x)] == NodesOf(Parent(x))[Last(x)] + 1
  {
  }

  lemma ReachedByTick(born: set<seq<Event>>, x: seq<Event>, y: seq<Event>, j: nat)
    requires PrefixClosed(born) && Separate(born) && x in born && y in born
    requires Parent(x) <= y && |Parent(x)| <= j < |y| && y[j].node == Last(x)
    ensures x <= y
  {
    var z := Ancestor(y, j + 1);
    assert z in born;
    assert Parent(z) == y[..j];
  }

  lemma AncestryOrForked(born: set<seq<Event>>, x: seq<Event>, y: seq<Event>)
    requires PrefixClosed(born) && Separate(born) && x in born && y in born
    ensures Le(ClockOf(x), ClockOf(y)) <==> x <= y
  {
    LeIsInclusion(x, y);
    if x <= y { PrefixIsIncluded(x, y); }
    if NodesOf(x) <= NodesOf(y) { IncludedIsPrefix(born, x, y); }
  }

  lemma SeparationDetects(born: set<seq<Event>>, x: seq<Event>, y: seq<Event>)
    requires PrefixClosed(born) && Separate(born) && x in born && y in born
    ensures HasConflict(ClockOf(x), ClockOf(y)) <==> Forked(x, y)
  {
    ConflictIsIncomparability(ClockOf(x), ClockOf(y));
    AncestryOrForked(born, x, y);
    AncestryOrForked(born, y, x);
  }

  /** Two events of a node that break separation forked unseen. */
  lemma UnseparatedIsMissed(x: seq<Event>, y: seq<Event>)
    requires x != [] && y != [] && Last(x) == Last(y) && Parent(x) <= Parent(y) && !(x <= y)
    ensures Forked(x, y) && !HasConflict(ClockOf(x), ClockOf(y))
  {
    PrefixIsIncluded(Parent(x), Parent(y));
    LeIsInclusion(x, y);
    ConflictIsIncomparability(ClockOf(x), ClockOf(y));
    assert y <= x ==> x == y;
  }

  /** Clocks detect every fork among the histories exactly when these are separate. */
  lemma DetectionNeedsSeparation(born: set<seq<Event>>)
    requires PrefixClosed(born)
    ensures DetectsForks(born) <==> Separate(born)
  {
    if Separate(born) {
      forall x, y | x in born && y in born ensures HasConflict(ClockOf(x), ClockOf(y)) <==> Forked(x, y) {
        SeparationDetects(born, x, y);
      }
    } else {
      var x, y :| x in born && y in born && x != [] && y != []
        && Last(x) == Last(y) && Parent(x) <= Parent(y) && !(x <= y);
      UnseparatedIsMissed(x, y);
    }
  }

  /** The check a node could make before it promotes its replica, on clocks alone: each of
      its own earlier events is known to the replica, or started from a copy in conflict
      with it. */
  ghost predicate SafePromotion(s: State, n: NodeId)
    requires n in s.replica
  {
    forall x | x in s.born && x != [] && Last(x) == n ::
      || Le(ClockOf(x), s.replica[n].meta.clock)
      || HasConflict(ClockOf(Parent(x)), s.replica[n].meta.clock)
  }

  /** The same on histories. */
  lemma SafeOnHistories(s: State, n: NodeId, x: seq<Event>)
    requires Sound(s) && Separate(s.born) && n in s.replica && x in s.born
    ensures var r := s.replica[n];
      && (Le(ClockOf(x), r.meta.clock) <==> x <= r.history)
      && (HasConflict(ClockOf(Parent(x)), r.meta.clock) <==> Forked(Parent(x), r.history))
  {
    var r, s' := s.replica[n], Parent(x);
    assert CopyOk(s.born, r);
    AncestryOrForked(s.born, x, r.history);
    ConflictIsIncomparability(ClockOf(s'), r.meta.clock);
    if s' != [] {
      assert s' == Ancestor(x, |x| - 1);
      AncestryOrForked(s.born, s', r.history);
      AncestryOrForked(s.born, r.history, s');
    }
  }

  lemma NewHistoryIsNew(s: State, n: NodeId)
    requires Sound(s) && n in s.replica
    ensures forall x | x in s.born :: !(PromotedCopy(s, n).history <= x)
  {
    var y := PromotedCopy(s, n).history;
    assert Event(n, s.events) in y;
    forall x | x in s.born ensures !(y <= x) {
      assert y <= x ==> forall e | e in y :: e in x;
    }
  }

  /** A promotion keeps the histories separate exactly when the check passes. */
  lemma PromotionStaysSeparate(s: State, n: NodeId)
    requires Sound(s) && Separate(s.born) && Promotes(s, n)
    ensures Separate(Next(s, Promote(n)).born) <==> SafePromotion(s, n)
  {
    var r, y := s.replica[n].history, PromotedCopy(s, n).history;
    var born := Next(s, Promote(n)).born;
    assert Parent(y) == r && Last(y) == n && y in born && y != [];
    NewHistoryIsNew(s, n);
    forall x | x in s.born && Last(x) == n
      ensures (x <= r || Forked(Parent(x), r)) <==>
        (Parent(x) <= r ==> x <= y) && (r <= Parent(x) ==> y <= x)
    {
      assert x != y;
      assert x <= y <==> x <= r;
    }
    if SafePromotion(s, n) {
      forall x | x in s.born && Last(x) == n ensures x <= r || Forked(Parent(x), r) { SafeOnHistories(s, n, x); }
      SeparateWith(s.born, y);
    }
    if Separate(born) {
      forall x | x in s.born && Last(x) == n
        ensures Le(ClockOf(x), s.replica[n].meta.clock) || HasConflict(ClockOf(Parent(x)), s.replica[n].meta.clock)
      {
        SafeOnHistories(s, n, x);
        assert x in born;
      }
    }
  }

  lemma SeparateWith(born: set<seq<Event>>, y: seq<Event>)
    requires Separate(born) && [] !in born && y != []
    requires forall x | x in born && Last(x) == Last(y) ::
      (Parent(x) <= Parent(y) ==> x <= y) && (Parent(y) <= Parent(x) ==> y <= x)
    ensures Separate(born + {y})
  {
  }

  /** A step that does not promote, or passes the check. */
  ghost predicate SafeStep(s: State, step: Step) {
    step.Promote? && Promotes(s, step.node) ==> SafePromotion(s, step.node)
  }

  ghost predicate SafeAt(steps: seq<Step>, i: nat)
    requires i < |steps|
  {
    SafeStep(Run(steps[..i]), steps[i])
  }

  /** Every promotion that took place in the run passed the check. */
  ghost predicate PromotionsSafe(steps: seq<Step>) {
    forall i | 0 <= i < |steps| :: SafeAt(steps, i)
  }

  lemma SafeSnoc(init: seq<Step>, last: Step)
    ensures PromotionsSafe(init + [last]) <==> PromotionsSafe(init) && SafeStep(Run(init), last)
  {
    var steps := init + [last];
    assert steps[..|init|] == init;
    forall i: nat | i < |init| ensures SafeAt(init, i) <==> SafeAt(steps, i) {
      assert init[..i] == steps[..i];
    }
    assert SafeAt(steps, |init|) <==> SafeStep(Run(init), last);
    if PromotionsSafe(steps) {
      assert SafeAt(steps, |init|);
      forall i | 0 <= i < |init| ensures SafeAt(init, i) { assert SafeAt(steps, i); }
    }
  }

  lemma CreateStaysSeparate(s: State, n: NodeId)
    requires BornOk(s)
    ensures Separate(Next(s, Create(n)).born) <==> Separate(s.born)
  {
    if s.events == 0 {
      assert s.born == {} by { assert forall h | h in s.born :: |h| <= 0; }
    }
  }

  lemma PromoteStaysSeparate(s: State, n: NodeId)
    requires Sound(s)
    ensures Separate(Next(s, Promote(n)).born) <==> Separate(s.born) && SafeStep(s, Promote(n))
  {
    if Promotes(s, n) {
      if Separate(s.born) {
        PromotionStaysSeparate(s, n);
      } else {
        UnseparatedStays(s.born, Next(s, Promote(n)).born);
      }
    }
  }

  lemma NothingElseIsBorn(s: State, step: Step)
    requires !step.Create? && !step.Promote?
    ensures Next(s, step).born == s.born
  {
  }

  lemma StepStaysSeparate(s: State, step: Step)
    requires Sound(s)
    ensures Separate(Next(s, step).born) <==> Separate(s.born) && SafeStep(s, step)
  {
    match step
    case Create(n) => CreateStaysSeparate(s, n);
    case Promote(n) => PromoteStaysSeparate(s, n);
    case _ => NothingElseIsBorn(s, step);
  }

  lemma RunStaysSeparate(init: seq<Step>, last: Step)
    ensures Separate(Run(init + [last]).born) <==> Separate(Run(init).born) && SafeStep(Run(init), last)
  {
    RunIsSound(init);
    StepStaysSeparate(Run(init), last);
    RunSnoc(init, last);
  }

  lemma RunSnoc(steps: seq<Step>, step: Step)
    ensures Run(steps + [step]) == Next(Run(steps), step)
  {
    assert (steps + [step])[..|steps|] == steps;
  }

  lemma UnseparatedStays(born: set<seq<Event>>, more: set<seq<Event>>)
    requires born <= more && !Separate(born)
    ensures !Separate(more)
  {
  }

  lemma {:induction false} SeparateExactlyWhenSafe(steps: seq<Step>)
    ensures Separate(Run(steps).born) <==> PromotionsSafe(steps)
  {
    if steps != [] {
      var init, last := steps[..|steps| - 1], steps[|steps| - 1];
      assert steps == init + [last];
      SeparateExactlyWhenSafe(init);
      RunStaysSeparate(init, last);
      SafeSnoc(init, last);
    }
  }

  /** The characterisation, for every run: among all copies the run ever made, clocks
      conflict exactly when histories forked, if and only if every promotion passed the
      check. */
  lemma ForksDetectedExactlyWhenPromotionsSafe(steps: seq<Step>)
    ensures DetectsForks(Run(steps).born) <==> PromotionsSafe(steps)
  {
    RunIsSound(steps);
    SeparateExactlyWhenSafe(steps);
    DetectionNeedsSeparation(Run(steps).born);
  }

  lemma ClockOrderIsAncestry(steps: seq<Step>, c: Copy, d: Copy)
    requires PromotionsSafe(steps) && IsCopy(Run(steps), c) && IsCopy(Run(steps), d)
    ensures Le(c.meta.clock, d.meta.clock) <==> c.history <= d.history
  {
    RunIsSound(steps);
    SeparateExactlyWhenSafe(steps);
    CopyIsOk(steps, c);
    CopyIsOk(steps, d);
    AncestryOrForked(Run(steps).born, c.history, d.history);
  }

  lemma ConflictExactlyWhenForked(steps: seq<Step>, c: Copy, d: Copy)
    requires PromotionsSafe(steps) && IsCopy(Run(steps), c) && IsCopy(Run(steps), d)
    ensures HasConflict(c.meta.clock, d.meta.clock) <==> Forked(c.history, d.history)
  {
    ConflictIsIncomparability(c.meta.clock, d.meta.clock);
    ClockOrderIsAncestry(steps, c, d);
    ClockOrderIsAncestry(steps, d, c);
  }

  // ---------- runs in which no node comes back ----------

  predicate Removes(step: Step, n: NodeId) {
    step.Delete? && step.removed && step.node == n
  }

  /** No node promotes after it removed its own live copy. */
  ghost predicate NoReturn(steps: seq<Step>) {
    forall i, j | 0 <= i < j < |steps| && steps[j].Promote? :: !Removes(steps[i], steps[j].node)
  }

  lemma LiveUntilRemoved(s: State, step: Step, x: seq<Event>)
    requires x in Next(s, step).born && x != [] && (x in s.born ==> Last(x) in s.live)
    ensures Last(x) in Next(s, step).live || Removes(step, Last(x))
  {
    if x !in s.born && step.Promote? {
      assert x == PromotedCopy(s, step.node).history;
    }
  }

  /** The node of a creation or promotion keeps its live copy until it removes it. */
  lemma {:induction false} LiveOrRemoved(steps: seq<Step>, x: seq<Event>)
    requires x in Run(steps).born && x != []
    ensures Last(x) in Run(steps).live || exists i | 0 <= i < |steps| :: Removes(steps[i], Last(x))
  {
    if steps != [] {
      var init, last := steps[..|steps| - 1], steps[|steps| - 1];
      if x in Run(init).born {
        LiveOrRemoved(init, x);
        if i :| 0 <= i < |init| && Removes(init[i], Last(x)) { assert Removes(steps[i], Last(x)); }
      }
      if x in Run(init).born ==> Last(x) in Run(init).live {
        LiveUntilRemoved(Run(init), last, x);
      }
    }
  }

  /** In such runs every promotion is safe, so detection is exact. */
  lemma NoReturnIsSafe(steps: seq<Step>)
    requires NoReturn(steps)
    ensures PromotionsSafe(steps)
  {
    forall j | 0 <= j < |steps| && steps[j].Promote? ensures SafeAt(steps, j) {
      var s, n := Run(steps[..j]), steps[j].node;
      forall x | x in s.born && x != [] && Last(x) == n ensures n in s.live {
        LiveOrRemoved(steps[..j], x);
        if i :| 0 <= i < j && Removes(steps[..j][i], n) { assert Removes(steps[i], n); }
      }
    }
  }

  predicate DeletionFree(steps: seq<Step>) {
    forall step | step in steps :: !step.Delete?
  }

  /** Without deletions, moreover, the registries hold exactly the live copies. */
  lemma {:induction false} DeletionFreeRegistry(steps: seq<Step>)
    requires DeletionFree(steps)
    ensures NoReturn(steps)
    ensures Run(steps).registry.Keys == Run(steps).live.Keys
  {
    forall i, j | 0 <= i < j < |steps| && steps[j].Promote? ensures !Removes(steps[i], steps[j].node) {
      assert steps[i] in steps;
    }
    if steps != [] {
      var init, last := steps[..|steps| - 1], steps[|steps| - 1];
      DeletionFreeRegistry(init);
      assert last in steps;
      KeepsRegistered(Run(init), last);
    }
  }

  lemma KeepsRegistered(s: State, step: Step)
    requires s.registry.Keys == s.live.Keys && !step.Delete?
    ensures Next(s, step).registry.Keys == Next(s, step).live.Keys
  {
  }
}
