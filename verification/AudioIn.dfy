/** The session ids of AudioCore::AudioIn::Manager: a ring of free ids. */
module AudioIn {
  import opened Collections

  const MAX_IN_SESSIONS: nat := 4

  datatype Op = Acquire | Release(id: nat)

  /** The ids of the free slots, in the order in which they will be handed out. */
  ghost function FreeIds(ids: seq<nat>, next: nat, free: nat): (r: seq<nat>)
    requires |ids| == MAX_IN_SESSIONS
    ensures |r| == free
  {
    seq(free, i requires 0 <= i < free => ids[(next + i) % MAX_IN_SESSIONS])
  }

  /** Taking the first slot moves the start of the ring. */
  lemma RingPop(ids: seq<nat>, next: nat, free: nat)
    requires |ids| == MAX_IN_SESSIONS && next < MAX_IN_SESSIONS && free > 0
    ensures FreeIds(ids, next, free) == [ids[next]] + FreeIds(ids, (next + 1) % MAX_IN_SESSIONS, free - 1)
  {
    var a, b := FreeIds(ids, next, free), FreeIds(ids, (next + 1) % MAX_IN_SESSIONS, free - 1);
    forall i | 0 <= i < free - 1
      ensures a[i + 1] == b[i]
    {
      ModStep(next, i);
    }
  }

  lemma ModStep(next: nat, i: nat)
    requires next < MAX_IN_SESSIONS
    ensures ((next + 1) % MAX_IN_SESSIONS + i) % MAX_IN_SESSIONS == (next + (i + 1)) % MAX_IN_SESSIONS
  {
    if next == 3 {
      assert (4 + i) % 4 == i % 4;
    }
  }

  /** Writing the slot behind the ring adds to its end and leaves the rest alone. */
  lemma RingPush(ids: seq<nat>, next: nat, free: nat, id: nat)
    requires |ids| == MAX_IN_SESSIONS && next < MAX_IN_SESSIONS && free < MAX_IN_SESSIONS
    ensures FreeIds(ids[(next + free) % MAX_IN_SESSIONS := id], next, free + 1) == FreeIds(ids, next, free) + [id]
  {
    var k := (next + free) % MAX_IN_SESSIONS;
    var a, b := FreeIds(ids[k := id], next, free + 1), FreeIds(ids, next, free);
    forall i | 0 <= i < free
      ensures a[i] == b[i]
    {
      SlotsDiffer(next, i, free);
    }
  }

  lemma SlotsDiffer(next: nat, i: nat, j: nat)
    requires next < MAX_IN_SESSIONS && i < j < MAX_IN_SESSIONS
    ensures (next + i) % MAX_IN_SESSIONS != (next + j) % MAX_IN_SESSIONS
  {
  }

  /** The free ids are distinct, and together with the held ids they are all ids. */
  ghost predicate Partition(free: seq<nat>, held: set<nat>) {
    && (forall i, j :: 0 <= i < j < |free| ==> free[i] != free[j])
    && (forall id :: id in free || id in held ==> id < MAX_IN_SESSIONS)
    && (forall id :: 0 <= id < MAX_IN_SESSIONS ==> (id in free <==> id !in held))
  }

  lemma PartitionPop(id: nat, rest: seq<nat>, held: set<nat>)
    requires Partition([id] + rest, held)
    ensures id < MAX_IN_SESSIONS && id !in held && Partition(rest, held + {id})
  {
    var free := [id] + rest;
    assert free[0] == id;
    assert id in free;
    forall i, j | 0 <= i < j < |rest| ensures rest[i] != rest[j] {
      assert free[i + 1] == rest[i] && free[j + 1] == rest[j];
    }
    forall i | 0 <= i < |rest| ensures rest[i] != id && rest[i] in free {
      assert free[i + 1] == rest[i];
    }
    assert forall x :: x in free <==> x == id || x in rest;
  }

  lemma PartitionPush(free: seq<nat>, held: set<nat>, id: nat)
    requires Partition(free, held) && id in held
    ensures Partition(free + [id], held - {id})
  {
  }

  /** An id that is free already would be in the ring twice. */
  lemma PartitionBroken(free: seq<nat>, held: set<nat>, id: nat)
    requires Partition(free, held) && id < MAX_IN_SESSIONS && id !in held
    ensures !Partition(free + [id], held - {id})
  {
    var i :| 0 <= i < |free| && free[i] == id;
    assert (free + [id])[i] == (free + [id])[|free|];
  }

  /** While some id is held, not every slot is in use. */
  lemma NotFull(free: seq<nat>, held: set<nat>, id: nat)
    requires Partition(free, held) && id in held
    ensures |free| < MAX_IN_SESSIONS
  {
    var s := set i | i in free;
    DistinctSize(free, s);
    assert s <= {0, 1, 2, 3} - {id};
    SubsetSize(s, {0, 1, 2, 3} - {id});
  }

  class Manager {
    var session_ids: seq<nat>
    var num_free_sessions: nat
    var next_session_id: nat
    var free_session_id: nat

    /** The ids that were handed out and not given back. */
    ghost var held: set<nat>

    ghost predicate Valid()
      reads this
    {
      && |session_ids| == MAX_IN_SESSIONS
      && num_free_sessions <= MAX_IN_SESSIONS && next_session_id < MAX_IN_SESSIONS
      && free_session_id == (next_session_id + num_free_sessions) % MAX_IN_SESSIONS
      && Partition(Free(), held)
    }

    ghost function Free(): (r: seq<nat>)
      requires |session_ids| == MAX_IN_SESSIONS
      reads this
      ensures |r| == num_free_sessions
    {
      FreeIds(session_ids, next_session_id, num_free_sessions)
    }

    constructor ()
      ensures Valid() && held == {} && Free() == [0, 1, 2, 3]
    {
      session_ids := [0, 1, 2, 3];
      num_free_sessions := MAX_IN_SESSIONS;
      next_session_id, free_session_id := 0, 0;
      held := {};
      new;
      assert Free() == [0, 1, 2, 3];
      assert Partition([0, 1, 2, 3], {});
    }

    /** AcquireSessionId: the id that has been free for longest; fails only when every id is held. */
    method AcquireSessionId() returns (r: Option<nat>)
      requires Valid()
      modifies this
      ensures Valid()
      ensures r.None? ==> held == old(held) && Free() == old(Free()) == []
      ensures r.None? ==> forall id :: 0 <= id < MAX_IN_SESSIONS ==> id in held
      ensures r.Some? ==> r.value < MAX_IN_SESSIONS && r.value !in old(held) && held == old(held) + {r.value}
      ensures r.Some? ==> old(Free()) == [r.value] + Free()
    {
      hide FreeIds;
      if num_free_sessions == 0 {
        assert Free() == [];
        return None; // ResultOutOfSessions
      }
      RingPop(session_ids, next_session_id, num_free_sessions);
      var session_id := session_ids[next_session_id];
      next_session_id := (next_session_id + 1) % MAX_IN_SESSIONS;
      num_free_sessions := num_free_sessions - 1;
      PartitionPop(session_id, Free(), held);
      held := held + {session_id};
      r := Some(session_id);
    }

    /**
     * ReleaseSessionId, which checks nothing: an id that is held joins the end of the ring; giving back
     * any other one breaks the ring.
     */
    method ReleaseSessionId(session_id: nat)
      requires Valid() && session_id < MAX_IN_SESSIONS
      modifies this
      ensures held == old(held) - {session_id}
      ensures Valid() <==> session_id in old(held)
      ensures session_id in old(held) ==> Free() == old(Free()) + [session_id]
    {
      hide FreeIds, Partition;
      if session_id in held {
        NotFull(Free(), held, session_id);
        PartitionPush(Free(), held, session_id);
      } else {
        PartitionBroken(Free(), held, session_id);
      }
      if num_free_sessions < MAX_IN_SESSIONS {
        RingPush(session_ids, next_session_id, num_free_sessions, session_id);
      }
      session_ids := session_ids[free_session_id := session_id];
      num_free_sessions := num_free_sessions + 1;
      free_session_id := (free_session_id + 1) % MAX_IN_SESSIONS;
      held := held - {session_id};
    }
  }

  lemma SubsetSize(a: set<nat>, b: set<nat>)
    requires a <= b
    ensures |a| <= |b|
  {
    assert b == a + (b - a);
  }

  lemma {:induction false} DistinctSize(s: seq<nat>, t: set<nat>)
    requires forall i, j :: 0 <= i < j < |s| ==> s[i] != s[j]
    requires t == set i | i in s
    ensures |t| == |s|
  {
    if s != [] {
      var n := |s| - 1;
      var init := s[..n];
      var u := set i | i in init;
      DistinctSize(init, u);
      assert t == u + {s[n]} by {
        assert s == init + [s[n]];
      }
      assert s[n] !in u;
    }
  }

  // ----- whole runs

  /** The free ids as a plain queue after the first n operations. */
  function Queue(ops: seq<Op>, n: nat): seq<nat>
    requires n <= |ops|
  {
    if n == 0 then [0, 1, 2, 3] else
      var q := Queue(ops, n - 1);
      match ops[n - 1]
      case Acquire => if q == [] then [] else q[1..]
      case Release(id) => q + [id]
  }

  /** What operation n of a run answers. */
  function Grant(ops: seq<Op>, n: nat): Option<nat>
    requires n < |ops|
  {
    if ops[n].Acquire? && Queue(ops, n) != [] then Some(Queue(ops, n)[0]) else None
  }

  /** Only ids that are held, that is not free, are given back. */
  ghost predicate Legal(ops: seq<Op>) {
    forall i :: 0 <= i < |ops| && ops[i].Release? ==> ops[i].id < MAX_IN_SESSIONS && ops[i].id !in Queue(ops, i)
  }

  ghost predicate Distinct(q: seq<nat>) {
    forall i, j :: 0 <= i < j < |q| ==> q[i] != q[j]
  }

  lemma DistinctTail(q: seq<nat>)
    requires Distinct(q) && q != []
    ensures Distinct(q[1..]) && q[0] !in q[1..]
  {
    forall i, j | 0 <= i < j < |q[1..]| ensures q[1..][i] != q[1..][j] {
      assert q[i + 1] != q[j + 1];
    }
    forall i | 0 <= i < |q[1..]| ensures q[1..][i] != q[0] {
      assert q[0] != q[i + 1];
    }
  }

  lemma {:induction false} QueueDistinct(ops: seq<Op>, n: nat)
    requires Legal(ops) && n <= |ops|
    ensures Distinct(Queue(ops, n))
  {
    if n != 0 {
      QueueDistinct(ops, n - 1);
      var q := Queue(ops, n - 1);
      if ops[n - 1].Acquire? && q != [] {
        DistinctTail(q);
      }
    }
  }

  lemma HeldStep(ops: seq<Op>, id: nat, n: nat)
    requires n < |ops| && id !in Queue(ops, n) && ops[n] != Release(id)
    ensures id !in Queue(ops, n + 1)
  {
    var q := Queue(ops, n);
    assert q != [] ==> q == [q[0]] + q[1..];
  }

  /** An id that is not free does not become free without being given back. */
  lemma {:induction false} StaysHeld(ops: seq<Op>, id: nat, a: nat, b: nat)
    requires a <= b <= |ops| && id !in Queue(ops, a)
    requires forall k :: a <= k < b ==> ops[k] != Release(id)
    ensures id !in Queue(ops, b)
    decreases b - a
  {
    hide Queue;
    if a < b {
      StaysHeld(ops, id, a, b - 1);
      HeldStep(ops, id, b - 1);
    }
  }

  lemma GrantTakes(ops: seq<Op>, i: nat)
    requires Legal(ops) && i < |ops| && Grant(ops, i).Some?
    ensures Grant(ops, i).value in Queue(ops, i) && Grant(ops, i).value !in Queue(ops, i + 1)
  {
    QueueDistinct(ops, i);
    DistinctTail(Queue(ops, i));
    hide Legal;
  }

  /** No id is handed out twice unless it was given back in between. */
  lemma NoDoubleGrant(ops: seq<Op>, i: nat, j: nat)
    requires Legal(ops) && i < j < |ops|
    requires Grant(ops, i).Some? && Grant(ops, i) == Grant(ops, j)
    ensures exists k :: i < k < j && ops[k] == Release(Grant(ops, i).value)
  {
    hide Queue, Legal, Grant;
    var id := Grant(ops, i).value;
    GrantTakes(ops, i);
    GrantTakes(ops, j);
    if forall k :: i < k < j ==> ops[k] != Release(id) {
      StaysHeld(ops, id, i + 1, j);
    }
  }

  lemma QueueStart(ops: seq<Op>)
    ensures Queue(ops, 0) == [0, 1, 2, 3]
  {
  }

  lemma QueueStep(ops: seq<Op>, n: nat)
    requires n < |ops|
    ensures ops[n].Acquire? ==> Queue(ops, n + 1) == if Queue(ops, n) == [] then [] else Queue(ops, n)[1..]
    ensures ops[n].Release? ==> Queue(ops, n + 1) == Queue(ops, n) + [ops[n].id]
  {
  }

  /** The manager answers any legal run as the queue does. */
  method Run(ops: seq<Op>) returns (grants: seq<Option<nat>>)
    requires Legal(ops)
    ensures |grants| == |ops|
    ensures forall i :: 0 <= i < |ops| ==> grants[i] == Grant(ops, i)
  {
    hide FreeIds, Queue;
    QueueStart(ops);
    grants := [];
    var m := new Manager();
    var n := 0;
    while n < |ops|
      invariant 0 <= n <= |ops| && |grants| == n
      invariant fresh(m) && m.Valid() && m.Free() == Queue(ops, n)
      invariant forall i :: 0 <= i < n ==> grants[i] == Grant(ops, i)
    {
      QueueStep(ops, n);
      match ops[n] {
        case Acquire =>
          var r := m.AcquireSessionId();
          grants := grants + [r];
        case Release(id) =>
          assert id in m.held;
          m.ReleaseSessionId(id);
          grants := grants + [None];
      }
      n := n + 1;
    }
  }
}
