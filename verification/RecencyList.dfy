/**
 Least-recently-used replacement on a plain list of page ids, oldest first: the
 specification the pool's clock stamps implement, and the classic consequence
 that a bounded list always holds exactly the most recently used distinct pages.
 */
module RecencyList {

  import opened Results

  predicate NoDuplicates(r: seq<nat>) {
    forall i, j :: 0 <= i < j < |r| ==> r[i] != r[j]
  }

  function Without(r: seq<nat>, id: nat): (w: seq<nat>)
    ensures forall x :: x in w <==> x in r && x != id
  {
    if r == [] then []
    else if r[|r| - 1] == id then Without(r[..|r| - 1], id)
    else Without(r[..|r| - 1], id) + [r[|r| - 1]]
  }

  lemma SnocNoDuplicates(w: seq<nat>, x: nat)
    requires NoDuplicates(w) && x !in w
    ensures NoDuplicates(w + [x])
  {
  }

  lemma {:induction false} WithoutNoDuplicates(r: seq<nat>, id: nat)
    requires NoDuplicates(r)
    ensures NoDuplicates(Without(r, id))
  {
    if r != [] {
      var n := |r| - 1;
      WithoutNoDuplicates(r[..n], id);
      assert r[n] !in r[..n];
      if r[n] != id {
        SnocNoDuplicates(Without(r[..n], id), r[n]);
      }
    }
  }

  /** The oldest page that is not pinned. */
  function Victim(r: seq<nat>, pinned: set<nat>): (v: Option<nat>)
    ensures v.None? <==> forall x :: x in r ==> x in pinned
    ensures v.Some? ==> v.value in r && v.value !in pinned
  {
    if r == [] then None
    else if r[0] !in pinned then Some(r[0])
    else Victim(r[1..], pinned)
  }

  /** The list after using page `id` in a pool of `capacity` pages; None when nothing can be evicted. */
  function Touch(r: seq<nat>, id: nat, capacity: nat, pinned: set<nat>): Option<seq<nat>> {
    if id in r then Some(Without(r, id) + [id])
    else if |r| < capacity then Some(r + [id])
    else
      match Victim(r, pinned)
      case None => None
      case Some(v) => Some(Without(r, v) + [id])
  }

  /** The list after evicting the oldest unpinned page n times. */
  function Shrink(r: seq<nat>, pinned: set<nat>, n: nat): (w: seq<nat>)
    ensures forall x :: x in w ==> x in r
    ensures forall x :: x in r && x in pinned ==> x in w
  {
    if n == 0 then r
    else
      var w := Shrink(r, pinned, n - 1);
      match Victim(w, pinned)
      case None => w
      case Some(v) => Without(w, v)
  }

  /** `a` comes before `b` in the list. */
  predicate Before(r: seq<nat>, a: nat, b: nat) {
    exists i, j :: 0 <= i < j < |r| && r[i] == a && r[j] == b
  }

  lemma {:induction false} VictimIsFirst(r: seq<nat>, pinned: set<nat>) returns (k: nat)
    requires Victim(r, pinned).Some?
    ensures k < |r| && r[k] == Victim(r, pinned).value && forall i :: 0 <= i < k ==> r[i] in pinned
  {
    if r[0] !in pinned {
      k := 0;
    } else {
      var j := VictimIsFirst(r[1..], pinned);
      k := j + 1;
    }
  }

  lemma VictimIsBefore(r: seq<nat>, pinned: set<nat>, x: nat)
    requires Victim(r, pinned).Some? && x in r && x !in pinned && x != Victim(r, pinned).value
    ensures Before(r, Victim(r, pinned).value, x)
  {
    hide Victim;
    var k := VictimIsFirst(r, pinned);
    var j :| 0 <= j < |r| && r[j] == x;
    assert r[k] == Victim(r, pinned).value && r[j] == x;
  }

  /** Whatever order the rest of a list had, it keeps. */
  lemma {:induction false} WithoutKeepsOrder(r: seq<nat>, id: nat, a: nat, b: nat)
    requires NoDuplicates(r) && Before(Without(r, id), a, b)
    ensures Before(r, a, b)
  {
    var n := |r| - 1;
    var w := Without(r, id);
    if r != [] {
      var i, j :| 0 <= i < j < |w| && w[i] == a && w[j] == b;
      assert r[..n] + [r[n]] == r;
      if r[n] != id && j == |w| - 1 {
        assert w[i] in Without(r[..n], id);
        var k :| 0 <= k < n && r[k] == a;
        assert r[k] == a && r[n] == b;
      } else {
        assert Before(Without(r[..n], id), a, b);
        WithoutKeepsOrder(r[..n], id, a, b);
        var k, m :| 0 <= k < m < n && r[..n][k] == a && r[..n][m] == b;
        assert r[k] == a && r[m] == b;
      }
    }
  }

  /** A page is evicted only if it is unpinned and older than every unpinned page that stays. */
  lemma {:induction false} ShrinkEvictsOldest(r: seq<nat>, pinned: set<nat>, n: nat, gone: nat, kept: nat)
    requires NoDuplicates(r)
    requires gone in r && gone !in Shrink(r, pinned, n) && kept in Shrink(r, pinned, n) && kept !in pinned
    ensures gone !in pinned && Before(r, gone, kept)
  {
    hide Without, Victim, NoDuplicates, Before;
    var w := Shrink(r, pinned, n - 1);
    ShrinkNoDuplicates(r, pinned, n - 1);
    if gone !in w {
      ShrinkEvictsOldest(r, pinned, n - 1, gone, kept);
    } else {
      VictimIsBefore(w, pinned, kept);
      ShrinkKeepsOrder(r, pinned, n - 1, gone, kept);
    }
  }

  lemma {:induction false} ShrinkNoDuplicates(r: seq<nat>, pinned: set<nat>, n: nat)
    requires NoDuplicates(r)
    ensures NoDuplicates(Shrink(r, pinned, n))
  {
    if n > 0 {
      ShrinkNoDuplicates(r, pinned, n - 1);
      var w := Shrink(r, pinned, n - 1);
      if Victim(w, pinned).Some? {
        WithoutNoDuplicates(w, Victim(w, pinned).value);
      }
    }
  }

  lemma {:induction false} ShrinkKeepsOrder(r: seq<nat>, pinned: set<nat>, n: nat, a: nat, b: nat)
    requires NoDuplicates(r) && Before(Shrink(r, pinned, n), a, b)
    ensures Before(r, a, b)
  {
    hide Without, Victim, NoDuplicates, Before;
    if n > 0 {
      var w := Shrink(r, pinned, n - 1);
      ShrinkNoDuplicates(r, pinned, n - 1);
      if Victim(w, pinned).Some? {
        WithoutKeepsOrder(w, Victim(w, pinned).value, a, b);
      }
      ShrinkKeepsOrder(r, pinned, n - 1, a, b);
    }
  }

  lemma {:induction false} WithoutAbsent(r: seq<nat>, id: nat)
    requires id !in r
    ensures Without(r, id) == r
  {
    if r != [] {
      assert r == r[..|r| - 1] + [r[|r| - 1]];
      WithoutAbsent(r[..|r| - 1], id);
    }
  }

  lemma {:induction false} WithoutConcat(a: seq<nat>, b: seq<nat>, id: nat)
    ensures Without(a + b, id) == Without(a, id) + Without(b, id)
  {
    if b == [] {
      assert a + b == a;
    } else {
      var n := |b| - 1;
      assert (a + b)[..|a + b| - 1] == a + b[..n];
      WithoutConcat(a, b[..n], id);
    }
  }

  lemma {:induction false} WithoutSize(r: seq<nat>, id: nat)
    requires NoDuplicates(r) && id in r
    ensures |Without(r, id)| == |r| - 1
  {
    var n := |r| - 1;
    assert r == r[..n] + [r[n]];
    if r[n] == id {
      WithoutAbsent(r[..n], id);
    } else {
      WithoutSize(r[..n], id);
    }
  }

  // ---- a pool whose pages are released at once --------------------------------

  /** The distinct pages of a trace of uses, ordered by last use. */
  function ByLastUse(trace: seq<nat>): (m: seq<nat>)
    ensures NoDuplicates(m)
    ensures forall x :: x in m <==> x in trace
  {
    if trace == [] then []
    else
      var n := |trace| - 1;
      assert trace == trace[..n] + [trace[n]];
      WithoutNoDuplicates(ByLastUse(trace[..n]), trace[n]);
      SnocNoDuplicates(Without(ByLastUse(trace[..n]), trace[n]), trace[n]);
      Without(ByLastUse(trace[..n]), trace[n]) + [trace[n]]
  }

  function Newest(m: seq<nat>, n: nat): seq<nat> {
    if |m| <= n then m else m[|m| - n..]
  }

  /** Residents after a trace of uses with no page left pinned. */
  function Residents(trace: seq<nat>, capacity: nat): seq<nat>
    requires capacity > 0
  {
    if trace == [] then []
    else
      var n := |trace| - 1;
      var r := Residents(trace[..n], capacity);
      var next := Touch(r, trace[n], capacity, {});
      if next.Some? then next.value else r
  }

  lemma VictimUnpinned(r: seq<nat>)
    requires r != []
    ensures Victim(r, {}) == Some(r[0])
  {
  }

  lemma WithoutFirst(r: seq<nat>)
    requires NoDuplicates(r) && r != []
    ensures Without(r, r[0]) == r[1..]
  {
    hide Without;
    assert r == [r[0]] + r[1..];
    assert r[0] !in r[1..];
    WithoutConcat([r[0]], r[1..], r[0]);
    WithoutAbsent(r[1..], r[0]);
    WithoutOnly(r[0]);
  }

  lemma WithoutOnly(id: nat)
    ensures Without([id], id) == []
  {
  }

  lemma TouchResident(front: seq<nat>, r: seq<nat>, id: nat)
    requires NoDuplicates(front + r) && id in r
    ensures Without(front + r, id) + [id] == front + (Without(r, id) + [id])
    ensures |Without(r, id) + [id]| == |r|
  {
    hide Without;
    var m := front + r;
    assert NoDuplicates(r) by {
      assert forall k :: 0 <= k < |r| ==> r[k] == m[|front| + k];
    }
    forall k | 0 <= k < |front|
      ensures front[k] != id
    {
      var j :| 0 <= j < |r| && r[j] == id;
      assert m[k] == front[k] && m[|front| + j] == id;
    }
    WithoutConcat(front, r, id);
    WithoutAbsent(front, id);
    WithoutSize(r, id);
  }

  lemma TouchEvicts(front: seq<nat>, r: seq<nat>, id: nat)
    requires NoDuplicates(front + r) && id !in r && r != []
    ensures Without(front + r, id) + [id] == (Without(front, id) + [r[0]]) + (Without(r, r[0]) + [id])
    ensures |Without(r, r[0]) + [id]| == |r|
  {
    hide Without;
    var m := front + r;
    assert NoDuplicates(r) by {
      assert forall k :: 0 <= k < |r| ==> r[k] == m[|front| + k];
    }
    WithoutConcat(front, r, id);
    WithoutAbsent(r, id);
    WithoutFirst(r);
    assert r == [r[0]] + r[1..];
  }

  /** One use keeps the list the newest part of the full history. */
  lemma TouchNewest(m: seq<nat>, id: nat, capacity: nat)
    requires NoDuplicates(m) && capacity > 0
    ensures Touch(Newest(m, capacity), id, capacity, {}) == Some(Newest(Without(m, id) + [id], capacity))
  {
    hide Without, Victim;
    var r := Newest(m, capacity);
    var front := m[..|m| - |r|];
    assert m == front + r;
    if id in r {
      TouchResident(front, r, id);
      NewestOfConcat(front, Without(r, id) + [id], capacity);
    } else if |r| < capacity {
      WithoutAbsent(m, id);
    } else {
      TouchEvicts(front, r, id);
      VictimUnpinned(r);
      NewestOfConcat(Without(front, id) + [r[0]], Without(r, r[0]) + [id], capacity);
    }
  }

  lemma NewestOfConcat(front: seq<nat>, r: seq<nat>, n: nat)
    requires |r| == n || (front == [] && |r| <= n)
    ensures Newest(front + r, n) == r
  {
  }

  /** The residents are exactly the capacity-many most recently used distinct pages. */
  lemma {:induction false} ResidentsAreNewest(trace: seq<nat>, capacity: nat)
    requires capacity > 0
    ensures Residents(trace, capacity) == Newest(ByLastUse(trace), capacity)
  {
    if trace != [] {
      var n := |trace| - 1;
      ResidentsAreNewest(trace[..n], capacity);
      TouchNewest(ByLastUse(trace[..n]), trace[n], capacity);
    }
  }

  /** A larger pool always holds everything a smaller one would. */
  lemma LargerPoolIncludesSmaller(trace: seq<nat>, small: nat, large: nat)
    requires 0 < small <= large
    ensures forall x :: x in Residents(trace, small) ==> x in Residents(trace, large)
  {
    ResidentsAreNewest(trace, small);
    ResidentsAreNewest(trace, large);
    var m := ByLastUse(trace);
    if |m| > large {
      assert m[|m| - small..] == m[|m| - large..][large - small..];
    }
  }
}
