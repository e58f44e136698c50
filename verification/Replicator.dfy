/** Replication rounds of the volumes of one node: states, retry counters, exclusion lists
    and backoff (crates/btrfs-exchange/src/replicator.rs). */
module Replicator {
  import opened Options
  import opened Clocks
  import opened Gossip
  import opened Text
  import Volumes

  const MAX_RETRIES: nat := 5
  const BASE_BACKOFF_MS: nat := 1000
  const MAX_BACKOFF_MS: nat := 60000

  datatype Failure = NoTargets | MaxRetries

  datatype RoundStatus = Idle | Syncing | Failed(why: Failure) | Completed | Retrying

  datatype Volume = Volume(
    status: RoundStatus, lastSync: Option<int>, targets: seq<NodeId>, retries: nat, failed: seq<NodeId>)

  type States = map<VolumeId, Volume>

  // ---------- the lock-held sections ----------

  function Fresh(targets: seq<NodeId>): Volume {
    Volume(Idle, None, targets, 0, [])
  }

  /** `replicate_volume` starts: an unknown volume gets a fresh entry. */
  function Begin(s: States, v: VolumeId): States {
    s[v := EntryOf(s, v).(status := Syncing)]
  }

  function GiveUp(s: States, v: VolumeId): States {
    if v in s then s[v := s[v].(status := Failed(NoTargets))] else s
  }

  function AddFailed(failed: seq<NodeId>, more: seq<NodeId>): (r: seq<NodeId>)
    ensures forall n :: n in r <==> n in failed || n in more
  {
    if more == [] then failed else
      var r := AddFailed(failed, more[..|more| - 1]);
      var last := more[|more| - 1];
      assert more == more[..|more| - 1] + [last];
      if last in r then r else r + [last]
  }

  function Outcome(x: Volume, chosen: nat, failures: nat): (RoundStatus, nat)
    requires failures <= chosen
  {
    if failures == 0 then (Completed, 0)
    else if failures < chosen then (Completed, x.retries)
    else (if x.retries + 1 >= MAX_RETRIES then Failed(MaxRetries) else Retrying, x.retries + 1)
  }

  function Closed(x: Volume, chosen: nat, newFailed: seq<NodeId>, now: int): Volume
    requires |newFailed| <= chosen
  {
    var (status, retries) := Outcome(x, chosen, |newFailed|);
    Volume(status, Some(now), x.targets, retries, AddFailed(x.failed, newFailed))
  }

  /** The closing section of a round with `chosen` targets, of which `newFailed` failed. */
  function Finish(s: States, v: VolumeId, chosen: nat, newFailed: seq<NodeId>, now: int): States
    requires |newFailed| <= chosen
  {
    if v in s then s[v := Closed(s[v], chosen, newFailed, now)] else s
  }

  function Register(s: States, v: VolumeId, targets: seq<NodeId>): States {
    s[v := Fresh(targets)]
  }

  function ClearFailed(s: States, v: VolumeId, n: NodeId): States {
    if v !in s then s else
      var x := s[v].(failed := Volumes.RemoveNode(s[v].failed, n));
      s[v := if x.status == Failed(MaxRetries) then x.(status := Idle, retries := 0) else x]
  }

  /** `get_volumes_for_replication` on one entry; `interval` in milliseconds. */
  predicate Due(x: Volume, now: int, interval: int) {
    match x.status
    case Syncing => false
    case Retrying => true
    case Failed(_) => x.lastSync.None? || now - x.lastSync.value > interval * 5
    case _ => x.lastSync.None? || now - x.lastSync.value > interval
  }

  function Power2(k: nat): nat {
    if k == 0 then 1 else 2 * Power2(k - 1)
  }

  function Backoff(exponent: nat): nat {
    var delay := BASE_BACKOFF_MS * Power2(exponent);
    if delay < MAX_BACKOFF_MS then delay else MAX_BACKOFF_MS
  }

  /** The peers a round may choose. */
  function Choices(peers: set<NodeId>, self: NodeId, x: Volume): set<NodeId> {
    Eligible(peers, self, (set n | n in x.targets) + (set n | n in x.failed))
  }

  datatype Played = Played(chosen: seq<NodeId>, newFailed: seq<NodeId>, now: int)

  /** One whole round on an entry: begin, choose, close. */
  function AfterRound(x: Volume, p: Played): Volume
    requires |p.newFailed| <= |p.chosen|
  {
    var y := x.(status := Syncing);
    if p.chosen == [] then y.(status := Failed(NoTargets)) else Closed(y, |p.chosen|, p.newFailed, p.now)
  }

  function EntryOf(s: States, v: VolumeId): Volume {
    if v in s then s[v] else Fresh([])
  }

  /** The sections of a round without interference come to `AfterRound`. */
  lemma WholeRound(s: States, v: VolumeId, p: Played)
    requires |p.newFailed| <= |p.chosen|
    ensures s[v := AfterRound(EntryOf(s, v), p)] ==
      if p.chosen == [] then GiveUp(Begin(s, v), v)
      else Finish(Begin(s, v), v, |p.chosen|, p.newFailed, p.now)
  {
  }

  /** A round as the code plays it: targets chosen among the eligible peers, failures among
      the targets. */
  ghost predicate PlayedOk(peers: set<NodeId>, self: NodeId, x: Volume, p: Played) {
    && |p.newFailed| <= |p.chosen|
    && (forall n | n in p.chosen :: n in Choices(peers, self, x))
    && (forall n | n in p.newFailed :: n in p.chosen)
  }

  ghost predicate Playable(peers: set<NodeId>, self: NodeId, x: Volume, ps: seq<Played>)
    decreases |ps|
  {
    ps == [] ||
    (PlayedOk(peers, self, x, ps[0]) && Playable(peers, self, AfterRound(x, ps[0]), ps[1..]))
  }

  function Failing(ps: seq<Played>): nat {
    if ps == [] then 0 else (if ps[0].newFailed == [] then 0 else 1) + Failing(ps[1..])
  }

  function AfterRounds(x: Volume, ps: seq<Played>): Volume
    requires Sized(ps)
    decreases |ps|
  {
    if ps == [] then x else AfterRounds(AfterRound(x, ps[0]), ps[1..])
  }

  lemma {:induction false} PlayableSnoc(peers: set<NodeId>, self: NodeId, x: Volume, ps: seq<Played>, p: Played)
    requires Playable(peers, self, x, ps) && Sized(ps + [p])
    requires PlayedOk(peers, self, AfterRounds(x, ps), p)
    ensures Playable(peers, self, x, ps + [p])
    ensures AfterRounds(x, ps + [p]) == AfterRound(AfterRounds(x, ps), p)
    decreases |ps|
  {
    if ps == [] {
      assert (ps + [p])[1..] == [];
    } else {
      assert (ps + [p])[1..] == ps[1..] + [p];
      PlayableSnoc(peers, self, AfterRound(x, ps[0]), ps[1..], p);
    }
  }

  /** What the rounds of a volume meet: whether the snapshot works, the replica count, the
      fates of the attempts and the time. */
  datatype RoundInput = RoundInput(snapshotOk: bool, count: nat, succeeds: NodeId -> nat -> bool, now: int)

  /** Equal but for the status: a round overwrites that first. */
  predicate Alike(x: Volume, y: Volume) {
    x == y.(status := x.status)
  }

  lemma AlikeRounds(peers: set<NodeId>, self: NodeId, x: Volume, y: Volume, p: Played)
    requires Alike(x, y) && PlayedOk(peers, self, x, p)
    ensures PlayedOk(peers, self, y, p) && AfterRound(x, p) == AfterRound(y, p)
  {
    assert Choices(peers, self, x) == Choices(peers, self, y);
  }

  predicate Sized(ps: seq<Played>) {
    forall p | p in ps :: |p.newFailed| <= |p.chosen|
  }

  /** The rounds `ps` of an entry `x`, which have led to `y` but for the status. */
  ghost predicate Led(peers: set<NodeId>, self: NodeId, x: Volume, ps: seq<Played>, y: Volume) {
    Sized(ps) && Playable(peers, self, x, ps) && Alike(y, AfterRounds(x, ps))
  }

  lemma LedOn(peers: set<NodeId>, self: NodeId, x: Volume, ps: seq<Played>, y: Volume, p: Played)
    requires Led(peers, self, x, ps, y) && PlayedOk(peers, self, y, p)
    ensures Led(peers, self, x, ps + [p], AfterRound(y, p))
  {
    AlikeRounds(peers, self, y, AfterRounds(x, ps), p);
    PlayableSnoc(peers, self, x, ps, p);
  }

  /** The best targets with the failures among them are a round as it is played. */
  lemma BestIsPlayed(
    peers: map<NodeId, NodeInfo>, self: NodeId, x: Volume, count: nat, succeeds: NodeId -> nat -> bool, p: Played)
    requires BestTargets(peers, Choices(peers.Keys, self, x), count, p.chosen)
    requires p.newFailed == Unreached(p.chosen, succeeds)
    ensures PlayedOk(peers.Keys, self, x, p)
  {
  }

  class ReplicatorService {
    const gossip: GossipService
    var states: States

    constructor (gossip: GossipService)
      ensures states == map[] && this.gossip == gossip
    {
      this.gossip := gossip;
      states := map[];
    }

    method BeginRound(v: VolumeId)
      modifies this`states
      ensures states == Begin(old(states), v)
    {
      if v !in states { states := states[v := Volume(Idle, None, [], 0, [])]; }
      states := states[v := states[v].(status := Syncing)];
    }

    /** `select_replication_targets`: a node that failed or was a registered target is
        never chosen; the replica count is the most that are. */
    method SelectTargets(v: VolumeId, count: nat) returns (chosen: seq<NodeId>)
      ensures BestTargets(gossip.peers, Choices(gossip.peers.Keys, gossip.nodeId, EntryOf(states, v)), count, chosen)
      ensures forall n | n in chosen :: n in gossip.peers && n != gossip.nodeId
      ensures v in states ==> forall n | n in chosen :: n !in states[v].targets && n !in states[v].failed
    {
      var exclude: seq<NodeId> := [];
      if v in states {
        var x := states[v];
        exclude := x.targets;
        for i := 0 to |x.failed|
          invariant forall n :: n in exclude <==> n in x.targets || n in x.failed[..i]
        {
          assert x.failed[..i + 1] == x.failed[..i] + [x.failed[i]];
          if x.failed[i] !in exclude { exclude := exclude + [x.failed[i]]; }
        }
        assert x.failed[..|x.failed|] == x.failed;
      }
      assert (set n | n in exclude)
          == (set n | n in EntryOf(states, v).targets) + (set n | n in EntryOf(states, v).failed);
      if count == 0 { return []; }
      chosen := SelectReplicaTargets(gossip.peers, gossip.nodeId, exclude, count);
    }

    method AbandonRound(v: VolumeId)
      modifies this`states
      ensures states == GiveUp(old(states), v)
    {
      if v in states { states := states[v := states[v].(status := Failed(NoTargets))]; }
    }

    method FinishRound(v: VolumeId, chosen: nat, successes: nat, newFailed: seq<NodeId>, now: int)
      requires successes + |newFailed| == chosen
      modifies this`states
      ensures states == Finish(old(states), v, chosen, newFailed, now)
    {
      if v !in states { return; }
      var x := states[v].(lastSync := Some(now));
      var failed := x.failed;
      for i := 0 to |newFailed|
        invariant failed == AddFailed(x.failed, newFailed[..i])
      {
        assert newFailed[..i + 1][..i] == newFailed[..i];
        if newFailed[i] !in failed { failed := failed + [newFailed[i]]; }
      }
      assert newFailed[..|newFailed|] == newFailed;
      x := x.(failed := failed);
      if successes == chosen {
        x := x.(status := Completed, retries := 0);
      } else if successes > 0 {
        x := x.(status := Completed);
      } else {
        x := x.(retries := x.retries + 1);
        x := x.(status := if x.retries >= MAX_RETRIES then Failed(MaxRetries) else Retrying);
      }
      states := states[v := x];
    }

    /** `replicate_volume` without interference; `succeeds(n)(k)` is the fate of attempt `k`
        to send to `n`. The round is one of `AfterRound`, unless the snapshot fails. */
    method ReplicateVolume(v: VolumeId, snapshotOk: bool, count: nat, succeeds: NodeId -> nat -> bool, now: int)
      returns (ok: bool, played: Played)
      modifies this`states
      ensures ok <==> snapshotOk
      ensures !ok ==> states == Begin(old(states), v)
      ensures ok ==>
        var x := EntryOf(old(states), v);
        && BestTargets(gossip.peers, Choices(gossip.peers.Keys, gossip.nodeId, x), count, played.chosen)
        && played.newFailed == Unreached(played.chosen, succeeds)
        && |played.newFailed| <= |played.chosen|
        && states == old(states)[v := AfterRound(x, played)]
    {
      ghost var before := states;
      played := Played([], [], now);
      BeginRound(v);
      assert EntryOf(states, v) == EntryOf(before, v).(status := Syncing);
      if !snapshotOk { return false, played; }
      var chosen := SelectTargets(v, count);
      ok := true;
      if chosen == [] {
        AbandonRound(v);
        WholeRound(before, v, played);
      } else {
        var successes, newFailed := TryTargets(chosen, succeeds);
        played := Played(chosen, newFailed, now);
        FinishRound(v, |chosen|, successes, newFailed, now);
        WholeRound(before, v, played);
      }
    }

    /** Consecutive rounds of one volume on a fixed peer map: those whose snapshot works are
        rounds as `Playable` describes them, so few of them have a failing target. */
    method ReplicateRepeatedly(v: VolumeId, inputs: seq<RoundInput>) returns (ps: seq<Played>)
      modifies this`states
      ensures Playable(gossip.peers.Keys, gossip.nodeId, EntryOf(old(states), v), ps)
      ensures Failing(ps) <= |Choices(gossip.peers.Keys, gossip.nodeId, EntryOf(old(states), v))|
      ensures (forall input | input in inputs :: input.snapshotOk) ==> |ps| == |inputs|
    {
      ghost var x, peers, self := EntryOf(states, v), gossip.peers.Keys, gossip.nodeId;
      ps := [];
      for i := 0 to |inputs|
        invariant Led(peers, self, x, ps, EntryOf(states, v))
        invariant (forall input | input in inputs[..i] :: input.snapshotOk) ==> |ps| == i
      {
        ghost var y := EntryOf(states, v);
        var input := inputs[i];
        assert inputs[..i + 1] == inputs[..i] + [input];
        var ok, played := ReplicateVolume(v, input.snapshotOk, input.count, input.succeeds, input.now);
        if ok {
          BestIsPlayed(gossip.peers, self, y, input.count, input.succeeds, played);
          LedOn(peers, self, x, ps, y, played);
          ps := ps + [played];
        }
      }
      assert inputs[..|inputs|] == inputs;
      FailingRoundsAreBounded(peers, self, x, ps);
    }

    method RegisterVolume(v: VolumeId, targets: seq<NodeId>)
      modifies this`states
      ensures states == Register(old(states), v, targets)
    {
      states := states[v := Volume(Idle, None, targets, 0, [])];
    }

    method UnregisterVolume(v: VolumeId)
      modifies this`states
      ensures states == old(states) - {v}
    {
      states := states - {v};
    }

    method ClearFailedNodes(v: VolumeId, n: NodeId)
      modifies this`states
      ensures states == ClearFailed(old(states), v, n)
    {
      if v in states {
        var x := states[v];
        var kept: seq<NodeId> := [];
        for i := 0 to |x.failed|
          invariant kept == Volumes.RemoveNode(x.failed[..i], n)
        {
          assert x.failed[..i + 1][..i] == x.failed[..i];
          if x.failed[i] != n { kept := kept + [x.failed[i]]; }
        }
        assert x.failed[..|x.failed|] == x.failed;
        x := x.(failed := kept);
        if x.status == Failed(MaxRetries) { x := x.(status := Idle, retries := 0); }
        states := states[v := x];
      }
    }
  }

  /** The targets all of whose attempts fail, in order. */
  function Unreached(targets: seq<NodeId>, succeeds: NodeId -> nat -> bool): (r: seq<NodeId>)
    ensures |r| <= |targets|
    ensures forall n :: n in r <==> n in targets && forall k | 0 <= k <= MAX_RETRIES :: !succeeds(n)(k)
    ensures (forall n | n in targets :: n in r) ==> r == targets
  {
    if targets == [] then [] else
      var init, last := targets[..|targets| - 1], targets[|targets| - 1];
      assert targets == init + [last];
      Unreached(init, succeeds)
      + (if exists k | 0 <= k <= MAX_RETRIES :: succeeds(last)(k) then [] else [last])
  }

  /** The target loop of `replicate_volume`. */
  method TryTargets(targets: seq<NodeId>, succeeds: NodeId -> nat -> bool)
    returns (successes: nat, newFailed: seq<NodeId>)
    ensures newFailed == Unreached(targets, succeeds)
    ensures successes + |newFailed| == |targets|
  {
    successes, newFailed := 0, [];
    for i := 0 to |targets|
      invariant newFailed == Unreached(targets[..i], succeeds)
      invariant successes + |newFailed| == i
    {
      assert targets[..i + 1][..i] == targets[..i];
      var n := targets[i];
      var ok, _ := SendWithRetry(succeeds(n));
      if ok { successes := successes + 1; } else { newFailed := newFailed + [n]; }
    }
    assert targets[..|targets|] == targets;
  }

  /** `send_with_retry`: `succeeds(k)` is the fate of attempt `k`. It fails exactly when all
      six attempts fail, and then it has slept 31 seconds in all. */
  method SendWithRetry(succeeds: nat -> bool) returns (ok: bool, slept: nat)
    ensures ok <==> exists k | 0 <= k <= MAX_RETRIES :: succeeds(k)
    ensures !ok ==> slept == 31000
    ensures ok ==> exists k | 0 <= k <= MAX_RETRIES ::
      succeeds(k) && (forall j | 0 <= j < k :: !succeeds(j)) && slept == 1000 * (Power2(k) - 1)
  {
    slept := 0;
    for attempt := 0 to MAX_RETRIES + 1
      invariant forall k | 0 <= k < attempt :: !succeeds(k)
      invariant slept == if attempt <= MAX_RETRIES then BASE_BACKOFF_MS * (Power2(attempt) - 1) else 31000
    {
      SmallPowers();
      if succeeds(attempt) {
        assert slept == 1000 * (Power2(attempt) - 1);
        return true, slept;
      }
      if attempt < MAX_RETRIES {
        slept := slept + Backoff(attempt);
      }
    }
    ok := false;
  }

  lemma SmallPowers()
    ensures Power2(0) == 1 && Power2(1) == 2 && Power2(2) == 4 && Power2(3) == 8 && Power2(4) == 16 && Power2(5) == 32
  {
    assert Power2(2) == 2 * Power2(1);
    assert Power2(4) == 2 * Power2(3) && Power2(5) == 2 * Power2(4);
  }

  // ---------- what each section does to the entry of its volume ----------

  /** All entries but that of `v` are the same. */
  ghost predicate OthersSame(s: States, t: States, v: VolumeId) {
    forall u | u != v :: (u in t <==> u in s) && (u in t ==> t[u] == s[u])
  }

  /** A round starts: only the status changes, on a fresh entry if there was none. */
  lemma BeginExactly(s: States, v: VolumeId)
    ensures var t := Begin(s, v);
      && v in t && OthersSame(s, t, v) && t[v].status == Syncing
      && (v in s ==> t[v].retries == s[v].retries && t[v].failed == s[v].failed
                     && t[v].targets == s[v].targets && t[v].lastSync == s[v].lastSync)
      && (v !in s ==> t[v] == Volume(Syncing, None, [], 0, []))
  {
  }

  lemma GiveUpExactly(s: States, v: VolumeId)
    ensures GiveUp(s, v).Keys == s.Keys && OthersSame(s, GiveUp(s, v), v)
    ensures v in s ==> GiveUp(s, v)[v] == s[v].(status := Failed(NoTargets))
  {
  }

  /** A round ends. Without a failed target it is complete and the counter is reset; with
      some it is complete and the counter stays; with all of them failed the counter goes up,
      and the fifth time in a row of such counts is an error. */
  lemma FinishExactly(s: States, v: VolumeId, chosen: nat, newFailed: seq<NodeId>, now: int)
    requires |newFailed| <= chosen && 0 < chosen
    ensures Finish(s, v, chosen, newFailed, now).Keys == s.Keys
    ensures OthersSame(s, Finish(s, v, chosen, newFailed, now), v)
    ensures v in s ==>
      var x, y := s[v], Finish(s, v, chosen, newFailed, now)[v];
      && y.lastSync == Some(now) && y.targets == x.targets
      && x.failed <= y.failed && (Distinct(x.failed) ==> Distinct(y.failed))
      && (forall n :: n in y.failed <==> n in x.failed || n in newFailed)
      && (newFailed == [] ==> y.status == Completed && y.retries == 0)
      && (0 < |newFailed| < chosen ==> y.status == Completed && y.retries == x.retries)
      && (|newFailed| == chosen ==>
            y.retries == x.retries + 1 && y.status == (if x.retries + 1 < 5 then Retrying else Failed(MaxRetries)))
  {
    if v in s { FailedOnlyGrows(s[v].failed, newFailed); }
  }

  lemma {:induction false} FailedOnlyGrows(failed: seq<NodeId>, more: seq<NodeId>)
    ensures failed <= AddFailed(failed, more) && (Distinct(failed) ==> Distinct(AddFailed(failed, more)))
  {
    if more != [] { FailedOnlyGrows(failed, more[..|more| - 1]); }
  }

  lemma RegisterExactly(s: States, v: VolumeId, targets: seq<NodeId>)
    ensures var t := Register(s, v, targets);
      v in t && OthersSame(s, t, v) && t[v] == Volume(Idle, None, targets, 0, [])
  {
  }

  /** A clear takes the node off the list, and resets only the error of too many retries. */
  lemma ClearExactly(s: States, v: VolumeId, n: NodeId)
    ensures ClearFailed(s, v, n).Keys == s.Keys && OthersSame(s, ClearFailed(s, v, n), v)
    ensures v in s ==>
      var x, y := s[v], ClearFailed(s, v, n)[v];
      && (forall m :: m in y.failed <==> m in x.failed && m != n)
      && y.targets == x.targets && y.lastSync == x.lastSync
      && (x.status == Failed(MaxRetries) ==> y.status == Idle && y.retries == 0)
      && (x.status != Failed(MaxRetries) ==> y.status == x.status && y.retries == x.retries)
  {
  }

  /** When the scheduler picks a volume: never while it syncs, always while it retries, else
      when it was never synced or not for an interval, five intervals after an error. */
  lemma DueExactly(x: Volume, now: int, interval: int)
    ensures Due(x, now, interval) <==>
      || x.status == Retrying
      || (x.status != Syncing && x.lastSync == None)
      || (x.status in {Idle, Completed} && x.lastSync.Some? && now - x.lastSync.value > interval)
      || (x.status.Failed? && x.lastSync.Some? && now - x.lastSync.value > 5 * interval)
  {
  }

  // ---------- every interleaving of rounds ----------

  /** A round in progress. */
  datatype Round = Snapshotting(volume: VolumeId) | Sending(volume: VolumeId, chosen: seq<NodeId>)

  /** `queue` holds the volumes of the scheduler's last scan that it has not started yet;
      `stuck` holds the Syncing volumes that had a round end in a snapshot failure since
      their status was last written. */
  datatype System = System(states: States, rounds: map<nat, Round>, queue: set<VolumeId>, stuck: set<VolumeId>)

  datatype Step =
    | Scan(now: int, interval: int)
    | StartScheduled(round: nat, volume: VolumeId)
    | StartRequested(round: nat, volume: VolumeId)
    | SnapshotFails(round: nat)
    | TargetsChosen(round: nat, chosen: seq<NodeId>)
    | RoundEnds(round: nat, newFailed: seq<NodeId>, now: int)
    | Registers(volume: VolumeId, targets: seq<NodeId>)
    | Unregisters(volume: VolumeId)
    | Clears(volume: VolumeId, node: NodeId)

  /** Rounds of the same or different volumes overlap freely. The scheduler starts volumes
      that were due when it scanned (its backoff check may only delay them); a requested
      round (final sync of an unpublish) needs no scan. */
  function Next(s: System, step: Step): System {
    match step
    case Scan(now, interval) =>
      s.(queue := set v | v in s.states && Due(s.states[v], now, interval))
    case StartScheduled(r, v) =>
      if r in s.rounds || v !in s.queue then s else
        s.(states := Begin(s.states, v), rounds := s.rounds[r := Snapshotting(v)], queue := s.queue - {v},
           stuck := s.stuck - {v})
    case StartRequested(r, v) =>
      if r in s.rounds then s else
        s.(states := Begin(s.states, v), rounds := s.rounds[r := Snapshotting(v)], stuck := s.stuck - {v})
    case SnapshotFails(r) =>
      if r !in s.rounds || !s.rounds[r].Snapshotting? then s else
        var v := s.rounds[r].volume;
        s.(rounds := s.rounds - {r},
           stuck := if v in s.states && s.states[v].status == Syncing then s.stuck + {v} else s.stuck)
    case TargetsChosen(r, chosen) =>
      if r !in s.rounds || !s.rounds[r].Snapshotting? then s
      else if chosen == [] then
        s.(states := GiveUp(s.states, s.rounds[r].volume), rounds := s.rounds - {r},
           stuck := s.stuck - {s.rounds[r].volume})
      else
        s.(rounds := s.rounds[r := Sending(s.rounds[r].volume, chosen)])
    case RoundEnds(r, newFailed, now) =>
      if r !in s.rounds || !s.rounds[r].Sending? || |newFailed| > |s.rounds[r].chosen| then s else
        s.(states := Finish(s.states, s.rounds[r].volume, |s.rounds[r].chosen|, newFailed, now),
           rounds := s.rounds - {r}, stuck := s.stuck - {s.rounds[r].volume})
    case Registers(v, targets) => s.(states := Register(s.states, v, targets), stuck := s.stuck - {v})
    case Unregisters(v) => s.(states := s.states - {v}, stuck := s.stuck - {v})
    case Clears(v, n) => s.(states := ClearFailed(s.states, v, n))
  }

  function RunFrom(s: System, steps: seq<Step>): System {
    if steps == [] then s else Next(RunFrom(s, steps[..|steps| - 1]), steps[|steps| - 1])
  }

  const INIT := System(map[], map[], {}, {})

  /** Every step changes the states as its section does, and the queue as the scan does. */
  lemma StepsAreSections(s: System, step: Step)
    ensures var t := Next(s, step);
      match step
      case Scan(now, interval) =>
        t.states == s.states && forall v :: v in t.queue <==> v in s.states && Due(s.states[v], now, interval)
      case StartScheduled(r, v) =>
        if r in s.rounds || v !in s.queue then t == s
        else t.states == Begin(s.states, v) && t.rounds == s.rounds[r := Snapshotting(v)] && v !in t.queue
      case StartRequested(r, v) =>
        if r in s.rounds then t == s
        else t.states == Begin(s.states, v) && t.rounds == s.rounds[r := Snapshotting(v)]
      case SnapshotFails(r) => t.states == s.states && (r in t.rounds ==> t.rounds[r].Sending?)
      case TargetsChosen(r, chosen) =>
        if r in s.rounds && s.rounds[r].Snapshotting? then
          if chosen == [] then t.states == GiveUp(s.states, s.rounds[r].volume) && r !in t.rounds
          else t.states == s.states && r in t.rounds && t.rounds[r] == Sending(s.rounds[r].volume, chosen)
        else t == s
      case RoundEnds(r, newFailed, now) =>
        if r in s.rounds && s.rounds[r].Sending? && |newFailed| <= |s.rounds[r].chosen| then
          && t.states == Finish(s.states, s.rounds[r].volume, |s.rounds[r].chosen|, newFailed, now)
          && r !in t.rounds
        else t == s
      case Registers(v, targets) => t.states == Register(s.states, v, targets) && t.rounds == s.rounds
      case Unregisters(v) => t.states == s.states - {v} && t.rounds == s.rounds
      case Clears(v, n) => t.states == ClearFailed(s.states, v, n) && t.rounds == s.rounds
  {
  }

  ghost predicate InFlight(s: System, v: VolumeId) {
    exists r | r in s.rounds :: s.rounds[r].volume == v
  }

  /** What holds of each entry: a retrying volume has between 1 and 4 failed rounds, and a
      syncing one has a round in progress or lost its last one to a snapshot failure. */
  ghost predicate EntryOk(s: System, v: VolumeId)
    requires v in s.states
  {
    && (s.states[v].status == Retrying ==> 1 <= s.states[v].retries < MAX_RETRIES)
    && (s.states[v].status == Syncing ==> InFlight(s, v) || v in s.stuck)
  }

  ghost predicate Inv(s: System) {
    && (forall v | v in s.states :: EntryOk(s, v))
    && (forall v | v in s.stuck :: v in s.states && s.states[v].status == Syncing)
    && (forall r | r in s.rounds && s.rounds[r].Sending? :: s.rounds[r].chosen != [])
  }

  /** Closing a round leaves its volume out of Syncing and everyone else alone. */
  lemma ClosingSections(s: States, v: VolumeId, chosen: nat, newFailed: seq<NodeId>, now: int)
    requires |newFailed| <= chosen && 0 < chosen
    ensures var t := Finish(s, v, chosen, newFailed, now);
      && t.Keys == s.Keys
      && (v in t ==> t[v].status != Syncing && (t[v].status == Retrying ==> 1 <= t[v].retries < MAX_RETRIES))
      && (forall u | u in s && u != v :: t[u] == s[u])
    ensures var t := GiveUp(s, v);
      && t.Keys == s.Keys
      && (v in t ==> t[v].status == Failed(NoTargets))
      && (forall u | u in s && u != v :: t[u] == s[u])
  {
  }

  lemma StartKeepsInv(s: System, r: nat, v: VolumeId, queue: set<VolumeId>)
    requires Inv(s) && r !in s.rounds
    ensures Inv(s.(states := Begin(s.states, v), rounds := s.rounds[r := Snapshotting(v)], queue := queue,
                   stuck := s.stuck - {v}))
  {
    var t := s.(states := Begin(s.states, v), rounds := s.rounds[r := Snapshotting(v)], queue := queue,
                stuck := s.stuck - {v});
    assert t.rounds[r].volume == v;
    forall u | u in t.states ensures EntryOk(t, u) {
      if u != v && t.states[u].status == Syncing && u !in s.stuck {
        var q :| q in s.rounds && s.rounds[q].volume == u;
        assert t.rounds[q].volume == u;
      }
    }
  }

  /** Dropping a round of a volume that is no longer syncing, or is recorded as stuck. */
  lemma DropKeepsInv(s: System, t: System, r: nat)
    requires Inv(s) && r in s.rounds && t.rounds == s.rounds - {r}
    requires forall u | u != s.rounds[r].volume :: u in t.stuck <==> u in s.stuck
    requires t.states.Keys == s.states.Keys
    requires forall u | u in s.states && u != s.rounds[r].volume :: t.states[u] == s.states[u]
    requires var v := s.rounds[r].volume; v in t.states ==>
      && (t.states[v].status == Retrying ==> 1 <= t.states[v].retries < MAX_RETRIES)
      && (t.states[v].status == Syncing <==> v in t.stuck)
    requires s.rounds[r].volume in t.stuck ==> s.rounds[r].volume in t.states
    ensures Inv(t)
  {
    forall u | u in t.states ensures EntryOk(t, u) {
      if u != s.rounds[r].volume && t.states[u].status == Syncing && u !in t.stuck {
        assert EntryOk(s, u);
        var q :| q in s.rounds && s.rounds[q].volume == u;
        assert t.rounds[q].volume == u;
      }
    }
  }

  lemma ChooseKeepsInv(s: System, r: nat, chosen: seq<NodeId>)
    requires Inv(s)
    ensures Inv(Next(s, TargetsChosen(r, chosen)))
  {
    var t := Next(s, TargetsChosen(r, chosen));
    if r in s.rounds && s.rounds[r].Snapshotting? {
      var v := s.rounds[r].volume;
      if chosen == [] {
        ClosingSections(s.states, v, 1, [], 0);
        DropKeepsInv(s, t, r);
      } else {
        forall u | u in t.states ensures EntryOk(t, u) {
          if t.states[u].status == Syncing && u !in t.stuck {
            assert EntryOk(s, u);
            var q :| q in s.rounds && s.rounds[q].volume == u;
            assert t.rounds[q].volume == u;
          }
        }
      }
    }
  }

  lemma EndKeepsInv(s: System, r: nat, newFailed: seq<NodeId>, now: int)
    requires Inv(s)
    ensures Inv(Next(s, RoundEnds(r, newFailed, now)))
  {
    if r in s.rounds && s.rounds[r].Sending? && |newFailed| <= |s.rounds[r].chosen| {
      ClosingSections(s.states, s.rounds[r].volume, |s.rounds[r].chosen|, newFailed, now);
      DropKeepsInv(s, Next(s, RoundEnds(r, newFailed, now)), r);
    }
  }

  lemma EditKeepsInv(s: System, step: Step)
    requires Inv(s) && (step.Scan? || step.Registers? || step.Unregisters? || step.Clears?)
    ensures Inv(Next(s, step))
  {
    var t := Next(s, step);
    assert t.rounds == s.rounds && t.stuck <= s.stuck;
    forall u | u in t.states ensures EntryOk(t, u) {
      if u in s.states { assert EntryOk(s, u); }
    }
  }

  lemma StepKeepsInv(s: System, step: Step)
    requires Inv(s)
    ensures Inv(Next(s, step))
  {
    match step
    case StartScheduled(r, v) => if r !in s.rounds { StartKeepsInv(s, r, v, s.queue - {v}); }
    case StartRequested(r, v) => if r !in s.rounds { StartKeepsInv(s, r, v, s.queue); }
    case SnapshotFails(r) =>
      if r in s.rounds && s.rounds[r].Snapshotting? {
        assert s.rounds[r].volume in s.states ==> EntryOk(s, s.rounds[r].volume);
        DropKeepsInv(s, Next(s, step), r);
      }
    case TargetsChosen(r, chosen) => ChooseKeepsInv(s, r, chosen);
    case RoundEnds(r, newFailed, now) => EndKeepsInv(s, r, newFailed, now);
    case _ => EditKeepsInv(s, step);
  }

  lemma {:induction false} RunKeepsInv(s: System, steps: seq<Step>)
    requires Inv(s)
    ensures Inv(RunFrom(s, steps))
  {
    if steps != [] {
      RunKeepsInv(s, steps[..|steps| - 1]);
      StepKeepsInv(RunFrom(s, steps[..|steps| - 1]), steps[|steps| - 1]);
    }
  }

  /** Under every interleaving the backoff exponent of a retrying volume is defined and its
      delay lies between 1 and 8 seconds: the 60-second cap is never reached. */
  lemma RetryingIsBounded(steps: seq<Step>, v: VolumeId)
    requires v in RunFrom(INIT, steps).states && RunFrom(INIT, steps).states[v].status == Retrying
    ensures var x := RunFrom(INIT, steps).states[v];
      && 1 <= x.retries < MAX_RETRIES
      && BASE_BACKOFF_MS <= Backoff(x.retries - 1) <= 8 * BASE_BACKOFF_MS < MAX_BACKOFF_MS
      && Backoff(x.retries - 1) == BASE_BACKOFF_MS * Power2(x.retries - 1)
  {
    RunKeepsInv(INIT, steps);
    assert EntryOk(RunFrom(INIT, steps), v);
    SmallPowers();
  }

  /** Under every interleaving, a volume is Syncing with no round in progress exactly when a
      round of it failed its snapshot while it was Syncing and nothing wrote its status since. */
  lemma OnlySnapshotFailureLeavesSyncing(steps: seq<Step>, v: VolumeId)
    requires !InFlight(RunFrom(INIT, steps), v)
    ensures var s := RunFrom(INIT, steps);
      v in s.states && s.states[v].status == Syncing <==> v in s.stuck
  {
    RunKeepsInv(INIT, steps);
    assert v in RunFrom(INIT, steps).states ==> EntryOk(RunFrom(INIT, steps), v);
  }

  /** And every snapshot failure of a Syncing volume's only round does leave it so. */
  lemma SnapshotFailureLeavesSyncing(s: System, r: nat)
    requires r in s.rounds && s.rounds[r].Snapshotting?
    requires s.rounds[r].volume in s.states && s.states[s.rounds[r].volume].status == Syncing
    requires forall q | q in s.rounds && q != r :: s.rounds[q].volume != s.rounds[r].volume
    ensures var t, v := Next(s, SnapshotFails(r)), s.rounds[r].volume;
      && t.states == s.states && v in t.stuck && !InFlight(t, v)
      && (v in t.queue <==> v in s.queue)
  {
  }

  /** Such a volume, once out of the scheduler's queue, which the next scan takes it from,
      is never replicated again by the scheduler: until it is requested or registered anew
      it stays Syncing, whatever else happens. */
  lemma {:induction false} StuckVolumeIsNeverScheduled(s: System, steps: seq<Step>, v: VolumeId)
    requires v in s.states && s.states[v].status == Syncing && !InFlight(s, v) && v !in s.queue
    requires forall step | step in steps ::
      step != Unregisters(v)
      && !(step.StartRequested? && step.volume == v) && !(step.Registers? && step.volume == v)
    ensures var t := RunFrom(s, steps);
      v in t.states && t.states[v].status == Syncing && !InFlight(t, v) && v !in t.queue
  {
    if steps != [] {
      var init, last := steps[..|steps| - 1], steps[|steps| - 1];
      StuckVolumeIsNeverScheduled(s, init, v);
      assert last in steps;
      StuckStep(RunFrom(s, init), last, v);
    }
  }

  /** From a failed snapshot on: after the next scan no run of the scheduler, of other
      volumes and of clears gets the volume out of Syncing. */
  lemma FailedSnapshotStopsReplication(s: System, r: nat, now: int, interval: int, steps: seq<Step>)
    requires r in s.rounds && s.rounds[r].Snapshotting?
    requires s.rounds[r].volume in s.states && s.states[s.rounds[r].volume].status == Syncing
    requires forall q | q in s.rounds && q != r :: s.rounds[q].volume != s.rounds[r].volume
    requires forall step | step in steps ::
      step != Unregisters(s.rounds[r].volume)
      && !(step.StartRequested? && step.volume == s.rounds[r].volume)
      && !(step.Registers? && step.volume == s.rounds[r].volume)
    ensures var v := s.rounds[r].volume;
      var t := RunFrom(Next(Next(s, SnapshotFails(r)), Scan(now, interval)), steps);
      v in t.states && t.states[v].status == Syncing && !InFlight(t, v)
  {
    SnapshotFailureLeavesSyncing(s, r);
    StuckVolumeIsNeverScheduled(Next(Next(s, SnapshotFails(r)), Scan(now, interval)), steps, s.rounds[r].volume);
  }

  lemma StuckStep(s: System, step: Step, v: VolumeId)
    requires v in s.states && s.states[v].status == Syncing && !InFlight(s, v) && v !in s.queue
    requires step != Unregisters(v)
    requires !(step.StartRequested? && step.volume == v) && !(step.Registers? && step.volume == v)
    ensures var t := Next(s, step);
      v in t.states && t.states[v].status == Syncing && !InFlight(t, v) && v !in t.queue
  {
    var t := Next(s, step);
    assert forall r | r in s.rounds :: s.rounds[r].volume != v;
    assert forall r | r in t.rounds :: t.rounds[r].volume != v;
  }

  // ---------- consecutive rounds of one volume on a fixed peer map ----------

  lemma RoundShrinksChoices(peers: set<NodeId>, self: NodeId, x: Volume, p: Played)
    requires PlayedOk(peers, self, x, p)
    ensures forall n ::
      n in Choices(peers, self, AfterRound(x, p)) <==> n in Choices(peers, self, x) && n !in p.newFailed
    ensures |Choices(peers, self, AfterRound(x, p))| + (if p.newFailed == [] then 0 else 1) <= |Choices(peers, self, x)|
  {
    var y := AfterRound(x, p);
    assert y.targets == x.targets;
    assert forall n :: n in y.failed <==> n in x.failed || n in p.newFailed;
    var before, after := Choices(peers, self, x), Choices(peers, self, y);
    assert forall n :: n in after <==> n in before && n !in p.newFailed;
    if p.newFailed != [] {
      var n := p.newFailed[0];
      assert n in before && n !in after;
      SubsetSize(after, before - {n});
    }
  }

  /** On a fixed peer map, without clears or re-registration, the rounds in which some
      target fails number at most the initially eligible peers. */
  lemma {:induction false} FailingRoundsAreBounded(peers: set<NodeId>, self: NodeId, x: Volume, ps: seq<Played>)
    requires Playable(peers, self, x, ps)
    ensures Failing(ps) <= |Choices(peers, self, x)|
    decreases |ps|
  {
    if ps != [] {
      RoundShrinksChoices(peers, self, x, ps[0]);
      FailingRoundsAreBounded(peers, self, AfterRound(x, ps[0]), ps[1..]);
    }
  }

  /** All targets failed, or none. */
  predicate Lost(p: Played) {
    p.chosen != [] && |p.newFailed| == |p.chosen|
  }

  predicate Won(p: Played) {
    p.chosen != [] && p.newFailed == []
  }

  /** The lost rounds since the last won one, and whether there was a won one. */
  function LostSinceWon(ps: seq<Played>): (nat, bool) {
    if ps == [] then (0, false) else
      var (lost, won) := LostSinceWon(ps[..|ps| - 1]);
      var p := ps[|ps| - 1];
      if Won(p) then (0, true) else (if Lost(p) then lost + 1 else lost, won)
  }

  /** The retry counter of consecutive rounds counts the lost ones since the last won one. */
  lemma {:induction false} RetriesCountLostRounds(x: Volume, ps: seq<Played>)
    requires Sized(ps)
    ensures var (lost, won) := LostSinceWon(ps);
      AfterRounds(x, ps).retries == (if won then 0 else x.retries) + lost
    decreases |ps|
  {
    if ps != [] {
      var init, p := ps[..|ps| - 1], ps[|ps| - 1];
      assert ps == init + [p];
      RetriesCountLostRounds(x, init);
      AfterSnoc(x, init, p);
    }
  }

  lemma {:induction false} AfterSnoc(x: Volume, ps: seq<Played>, p: Played)
    requires Sized(ps + [p])
    ensures Sized(ps) && AfterRounds(x, ps + [p]) == AfterRound(AfterRounds(x, ps), p)
    decreases |ps|
  {
    assert forall q | q in ps :: q in ps + [p];
    if ps == [] {
      assert (ps + [p])[1..] == [];
    } else {
      assert (ps + [p])[1..] == ps[1..] + [p];
      AfterSnoc(AfterRound(x, ps[0]), ps[1..], p);
    }
  }

  /** A node that failed once is never chosen again. */
  lemma {:induction false} ExcludedStaysExcluded(
    peers: set<NodeId>, self: NodeId, x: Volume, ps: seq<Played>, n: NodeId, j: nat)
    requires Playable(peers, self, x, ps) && j < |ps| && n !in Choices(peers, self, x)
    ensures n !in ps[j].chosen
    decreases |ps|
  {
    if j > 0 {
      RoundShrinksChoices(peers, self, x, ps[0]);
      ExcludedStaysExcluded(peers, self, AfterRound(x, ps[0]), ps[1..], n, j - 1);
    }
  }

  lemma FailedIsExcluded(peers: set<NodeId>, self: NodeId, x: Volume, p: Played, n: NodeId)
    requires PlayedOk(peers, self, x, p) && n in p.newFailed
    ensures n !in Choices(peers, self, AfterRound(x, p))
  {
    RoundShrinksChoices(peers, self, x, p);
  }

  lemma {:induction false} FailedNodeIsNeverChosenAgain(
    peers: set<NodeId>, self: NodeId, x: Volume, ps: seq<Played>, n: NodeId, i: nat, j: nat)
    requires Playable(peers, self, x, ps) && i < j < |ps| && n in ps[i].newFailed
    ensures n !in ps[j].chosen
    decreases |ps|
  {
    if i == 0 {
      FailedIsExcluded(peers, self, x, ps[0], n);
      ExcludedStaysExcluded(peers, self, AfterRound(x, ps[0]), ps[1..], n, j - 1);
    } else {
      FailedNodeIsNeverChosenAgain(peers, self, AfterRound(x, ps[0]), ps[1..], n, i - 1, j - 1);
    }
  }
}
