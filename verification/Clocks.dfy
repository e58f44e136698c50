/** Vector clocks of a volume copy: order, merge and conflict test
    (crates/btrfs-ops/src/xattr.rs). */
module Clocks {

  type NodeId = string
  type Clock = map<NodeId, nat>

  /** A clock entry; a missing node counts as 0. */
  function At(c: Clock, n: NodeId): nat {
    if n in c then c[n] else 0
  }

  /** `vector_clock_le`: only the entries present in `a` are compared. */
  predicate Le(a: Clock, b: Clock) {
    forall n | n in a :: a[n] <= At(b, n)
  }

  /** `has_conflict`, with its shortcut for empty clocks. */
  predicate HasConflict(a: Clock, b: Clock) {
    if |a| == 0 || |b| == 0 then false else !Le(a, b) && !Le(b, a)
  }

  function Tick(c: Clock, n: NodeId): Clock {
    c[n := At(c, n) + 1]
  }

  function Max(x: nat, y: nat): nat {
    if x < y then y else x
  }

  function Merge(a: Clock, b: Clock): Clock {
    map n | n in a.Keys + b.Keys :: Max(At(a, n), At(b, n))
  }

  method VectorClockLe(a: Clock, b: Clock) returns (r: bool)
    ensures r <==> forall n :: At(a, n) <= At(b, n)
  {
    var rest := a.Keys;
    while rest != {}
      invariant rest <= a.Keys
      invariant forall n :: n in a && n !in rest ==> a[n] <= At(b, n)
      decreases rest
    {
      var n :| n in rest;
      if a[n] > At(b, n) {
        assert At(a, n) > At(b, n);
        return false;
      }
      rest := rest - {n};
    }
    return true;
  }

  method MergeVectorClocks(local: Clock, remote: Clock) returns (merged: Clock)
    ensures merged == Merge(local, remote)
  {
    merged := local;
    var rest := remote.Keys;
    while rest != {}
      invariant rest <= remote.Keys
      invariant merged.Keys == local.Keys + (remote.Keys - rest)
      invariant forall n :: n in merged ==>
        merged[n] == if n in rest then At(local, n) else Max(At(local, n), At(remote, n))
      decreases rest
    {
      var n :| n in rest;
      var entry := if n in merged then merged[n] else 0;
      merged := merged[n := Max(entry, remote[n])];
      rest := rest - {n};
    }
  }

  /** Comparing only the entries present in `a` is the pointwise order on all nodes. */
  lemma LeIsPointwise(a: Clock, b: Clock)
    ensures Le(a, b) <==> forall n :: At(a, n) <= At(b, n)
  {
    if Le(a, b) {
      forall n ensures At(a, n) <= At(b, n) {
        if n in a { assert a[n] <= At(b, n); }
      }
    }
    if forall n :: At(a, n) <= At(b, n) {
      forall n | n in a ensures a[n] <= At(b, n) {
        assert At(a, n) <= At(b, n);
      }
    }
  }

  lemma LeIsPreorder(a: Clock, b: Clock, c: Clock)
    ensures Le(a, a)
    ensures Le(a, b) && Le(b, c) ==> Le(a, c)
  {
    if Le(a, b) && Le(b, c) {
      LeIsPointwise(a, b);
      LeIsPointwise(b, c);
      forall n | n in a ensures a[n] <= At(c, n) {
        assert At(a, n) <= At(b, n) <= At(c, n);
      }
    }
  }

  /** The empty-clock shortcut changes nothing: conflict is incomparability. */
  lemma ConflictIsIncomparability(a: Clock, b: Clock)
    ensures HasConflict(a, b) <==> !Le(a, b) && !Le(b, a)
    ensures HasConflict(a, b) == HasConflict(b, a)
  {
    if |a| == 0 { assert a == map[]; }
    if |b| == 0 { assert b == map[]; }
  }

  lemma MergeIsLeastUpperBound(a: Clock, b: Clock, c: Clock)
    ensures Le(a, Merge(a, b)) && Le(b, Merge(a, b))
    ensures Le(Merge(a, b), c) <==> Le(a, c) && Le(b, c)
  {
    var m := Merge(a, b);
    if Le(m, c) {
      forall n | n in a ensures a[n] <= At(c, n) { assert m[n] <= At(c, n); }
      forall n | n in b ensures b[n] <= At(c, n) { assert m[n] <= At(c, n); }
    }
  }

  lemma MergeCommutes(a: Clock, b: Clock)
    ensures Merge(a, b) == Merge(b, a)
    ensures Merge(a, a) == a
  {
  }

  lemma MergeAssociates(a: Clock, b: Clock, c: Clock)
    ensures Merge(a, Merge(b, c)) == Merge(Merge(a, b), c)
  {
    var l, r := Merge(a, Merge(b, c)), Merge(Merge(a, b), c);
    assert l.Keys == r.Keys;
    forall n | n in l ensures l[n] == r[n] {
      assert l[n] == Max(At(a, n), Max(At(b, n), At(c, n)));
      assert r[n] == Max(Max(At(a, n), At(b, n)), At(c, n));
    }
  }

  ghost function SumOver(c: Clock, ks: set<NodeId>): nat {
    if ks == {} then 0 else
      var n :| n in ks;
      At(c, n) + SumOver(c, ks - {n})
  }

  /** The sum of all entries. */
  ghost function Total(c: Clock): nat {
    SumOver(c, c.Keys)
  }

  lemma {:induction false} SumRemove(c: Clock, ks: set<NodeId>, n: NodeId)
    requires n in ks
    ensures SumOver(c, ks) == At(c, n) + SumOver(c, ks - {n})
    decreases ks
  {
    var m :| m in ks && SumOver(c, ks) == At(c, m) + SumOver(c, ks - {m});
    if m != n {
      SumRemove(c, ks - {m}, n);
      SumRemove(c, ks - {n}, m);
      assert ks - {m} - {n} == ks - {n} - {m};
    }
  }

  lemma {:induction false} SumAgrees(c: Clock, d: Clock, ks: set<NodeId>)
    requires forall n | n in ks :: At(c, n) == At(d, n)
    ensures SumOver(c, ks) == SumOver(d, ks)
    decreases ks
  {
    if ks != {} {
      var n :| n in ks;
      SumRemove(c, ks, n);
      SumRemove(d, ks, n);
      SumAgrees(c, d, ks - {n});
    }
  }

  lemma TotalTick(c: Clock, n: NodeId)
    ensures Total(Tick(c, n)) == Total(c) + 1
  {
    var d := Tick(c, n);
    assert d.Keys - {n} == c.Keys - {n};
    SumRemove(d, d.Keys, n);
    SumAgrees(c, d, c.Keys - {n});
    if n in c {
      SumRemove(c, c.Keys, n);
    } else {
      assert c.Keys - {n} == c.Keys;
    }
  }
}
