/**
 The data model of the touch tracker: one observation per finger slot of a
 sample, the tracked touch it becomes, and the tracker's state.
 */
module Touch {
  import opened Options

  /**
   One finger slot of a sample, `(rel_pos, pressure, *rest)`. A `None`
   position stands for both Python's `None` and a NaN; pressure and the
   trailing fields (the channel span) are carried along untouched.
   */
  datatype Observation = Observation(pos: Option<real>, pressure: Option<real>, rest: seq<Option<real>>)

  /** An observation with its id, `(id, rel_pos, pressure, *rest)`. */
  datatype Tracked = Tracked(id: nat, pos: real, pressure: Option<real>, rest: seq<Option<real>>)

  /**
   The fields of a `TouchTracker`: `next_touch_id`, `active_touches`
   (id to last position) and `match_threshold`.
   */
  datatype Tracker = Tracker(nextId: nat, active: map<nat, real>, threshold: real)

  /** Only observations with a defined position take part in tracking. */
  predicate Valid(o: Observation) {
    o.pos.Some?
  }

  /** The linear distance `abs(old_pos - rel_pos)`; there is no wrap-around at 2*pi. */
  function Dist(a: real, b: real): (d: real)
    ensures d >= 0.0
    ensures d == a - b || d == b - a
  {
    if a >= b then a - b else b - a
  }

  /**
   Every active id was handed out by the counter. Holds of every state that
   `Init`, `Clear` and the assignment operations can produce.
   */
  predicate Inv(s: Tracker) {
    forall id :: id in s.active ==> id < s.nextId
  }

  /** The value of the double `math.pi / 8`, the default `match_threshold`, written out exactly. */
  const DefaultThreshold: real := 0.392699081698724139499745433568023145198822021484375

  /** `TouchTracker(match_threshold)`: no active touches, counter at 0. */
  function Init(threshold: real := DefaultThreshold): (s: Tracker)
    ensures Inv(s)
    ensures s.nextId == 0 && s.active == map[] && s.threshold == threshold
  {
    Tracker(0, map[], threshold)
  }

  /** `clear`: forgets the active touches but keeps the counter and the threshold. */
  function Clear(s: Tracker): (s': Tracker)
    ensures s'.active == map[]
    ensures s'.nextId == s.nextId && s'.threshold == s.threshold
    ensures Inv(s')
  {
    s.(active := map[])
  }

  /** Adds an id to a valid observation. */
  function Tag(o: Observation, id: nat): (t: Tracked)
    requires Valid(o)
    ensures t.id == id && Untag(t) == o
  {
    Tracked(id, o.pos.value, o.pressure, o.rest)
  }

  /** Drops the id again. */
  function Untag(t: Tracked): (o: Observation)
    ensures Valid(o)
  {
    Observation(Some(t.pos), t.pressure, t.rest)
  }

  /** The valid observations, in their input order. */
  function ValidOnly(obs: seq<Observation>): (r: seq<Observation>)
    ensures |r| <= |obs|
    ensures forall k :: 0 <= k < |r| ==> Valid(r[k])
  {
    if |obs| == 0 then []
    else ValidOnly(obs[..|obs| - 1]) + (if Valid(obs[|obs| - 1]) then [obs[|obs| - 1]] else [])
  }

  /** The positions of the valid observations, in increasing order. */
  function ValidIndices(obs: seq<Observation>): (vi: seq<nat>)
  {
    if |obs| == 0 then []
    else ValidIndices(obs[..|obs| - 1]) + (if Valid(obs[|obs| - 1]) then [|obs| - 1] else [])
  }

  /** Position `k` of the list is where the `k`-th valid observation sits. */
  lemma {:induction false} ValidIndicesSpec(obs: seq<Observation>)
    ensures |ValidIndices(obs)| == |ValidOnly(obs)|
    ensures forall k :: 0 <= k < |ValidIndices(obs)| ==>
      ValidIndices(obs)[k] < |obs| && obs[ValidIndices(obs)[k]] == ValidOnly(obs)[k]
    ensures forall p, q :: 0 <= p < q < |ValidIndices(obs)| ==> ValidIndices(obs)[p] < ValidIndices(obs)[q]
  {
    if |obs| > 0 {
      var front := obs[..|obs| - 1];
      var n := |obs| - 1;
      ValidIndicesSpec(front);
      var vf := ValidIndices(front);
      var wf := ValidOnly(front);
      forall k | 0 <= k < |vf|
        ensures vf[k] < n && obs[vf[k]] == wf[k]
      {
        assert front[vf[k]] == obs[vf[k]];
      }
      if Valid(obs[n]) {
        assert ValidIndices(obs) == vf + [n];
        assert ValidOnly(obs) == wf + [obs[n]];
      } else {
        assert ValidIndices(obs) == vf;
        assert ValidOnly(obs) == wf;
      }
    }
  }

  /** Every valid position is listed. */
  lemma {:induction false} ValidIndicesComplete(obs: seq<Observation>)
    ensures forall i :: 0 <= i < |obs| && Valid(obs[i]) ==> i in ValidIndices(obs)
  {
    if |obs| > 0 {
      var front := obs[..|obs| - 1];
      assert forall i :: 0 <= i < |front| ==> front[i] == obs[i];
      ValidIndicesComplete(front);
    }
  }

  /** Some tracked touch carries `id`. */
  predicate HasId(ts: seq<Tracked>, id: nat) {
    exists k :: 0 <= k < |ts| && ts[k].id == id
  }

  /** The dict `{tid: pos for tid, pos, *rest in matched}`: a later entry overrides an earlier one. */
  function ToActive(ts: seq<Tracked>): (m: map<nat, real>)
  {
    if |ts| == 0 then map[]
    else ToActive(ts[..|ts| - 1])[ts[|ts| - 1].id := ts[|ts| - 1].pos]
  }

  /** The keys of the dict are exactly the ids of the tracked touches. */
  lemma {:induction false} ToActiveKeys(ts: seq<Tracked>)
    ensures forall k :: 0 <= k < |ts| ==> ts[k].id in ToActive(ts)
    ensures forall id :: id in ToActive(ts) ==> HasId(ts, id)
  {
    if |ts| > 0 {
      var front := ts[..|ts| - 1];
      assert forall k :: 0 <= k < |front| ==> front[k] == ts[k];
      ToActiveKeys(front);
    }
  }

  /** With pairwise distinct ids, each tracked touch's position is stored under its id. */
  lemma {:induction false} ToActiveDistinct(ts: seq<Tracked>)
    requires forall j, k :: 0 <= j < k < |ts| ==> ts[j].id != ts[k].id
    ensures forall k :: 0 <= k < |ts| ==> ts[k].id in ToActive(ts)
    ensures forall k :: 0 <= k < |ts| ==> ToActive(ts)[ts[k].id] == ts[k].pos
    ensures |ToActive(ts)| == |ts|
  {
    if |ts| > 0 {
      var front := ts[..|ts| - 1];
      var last := ts[|ts| - 1];
      assert forall k :: 0 <= k < |front| ==> front[k] == ts[k];
      ToActiveDistinct(front);
      ToActiveKeys(front);
      assert last.id !in ToActive(front);
      assert ToActive(ts) == ToActive(front)[last.id := last.pos];
    }
  }

  /** How many of the touches carry an id from `next` on: the fresh ids of a frame. */
  function CountFrom(ts: seq<Tracked>, next: nat): nat {
    if |ts| == 0 then 0
    else CountFrom(ts[..|ts| - 1], next) + (if ts[|ts| - 1].id >= next then 1 else 0)
  }

  function IdsFrom(ts: seq<Tracked>, next: nat): set<nat> {
    set k | 0 <= k < |ts| && ts[k].id >= next :: ts[k].id
  }

  lemma {:induction false} CountFromDistinct(ts: seq<Tracked>, next: nat)
    requires forall j, k :: 0 <= j < k < |ts| ==> ts[j].id != ts[k].id
    ensures CountFrom(ts, next) == |IdsFrom(ts, next)|
  {
    if |ts| > 0 {
      var front := ts[..|ts| - 1];
      var last := ts[|ts| - 1];
      assert forall k :: 0 <= k < |front| ==> front[k] == ts[k];
      CountFromDistinct(front, next);
      IdsFromSnoc(ts, next);
      assert last.id !in IdsFrom(front, next) by {
        forall k | 0 <= k < |front|
          ensures front[k].id != last.id
        {
          assert front[k] == ts[k];
        }
      }
    }
  }

  /** The ids from `next` on of a list are those of its front plus possibly its last one. */
  lemma IdsFromSnoc(ts: seq<Tracked>, next: nat)
    requires |ts| > 0
    ensures IdsFrom(ts, next) == IdsFrom(ts[..|ts| - 1], next) + (if ts[|ts| - 1].id >= next then {ts[|ts| - 1].id} else {})
  {
    var front := ts[..|ts| - 1];
    forall x | x in IdsFrom(ts, next)
      ensures x in IdsFrom(front, next) || (x == ts[|ts| - 1].id && x >= next)
    {
      var k :| 0 <= k < |ts| && ts[k].id >= next && ts[k].id == x;
      if k < |front| {
        assert front[k] == ts[k];
      }
    }
    forall x | x in IdsFrom(front, next)
      ensures x in IdsFrom(ts, next)
    {
      var k :| 0 <= k < |front| && front[k].id >= next && front[k].id == x;
      assert ts[k] == front[k];
    }
  }

  /** The counter values from `lo` up to `hi`, exclusive. */
  function Range(lo: nat, hi: nat): (r: set<nat>)
    ensures forall i :: i in r <==> lo <= i < hi
    ensures lo <= hi ==> |r| == hi - lo
    decreases hi - lo
  {
    if lo >= hi then {} else {lo} + Range(lo + 1, hi)
  }

  /**
   Distinct ids below `hi` that include every value from `next` up to `hi`
   hold exactly `hi - next` ids from `next` on.
   */
  lemma CountFromRange(ts: seq<Tracked>, next: nat, hi: nat)
    requires next <= hi
    requires forall j, k :: 0 <= j < k < |ts| ==> ts[j].id != ts[k].id
    requires forall k :: 0 <= k < |ts| ==> ts[k].id < hi
    requires forall i :: next <= i < hi ==> HasId(ts, i)
    ensures CountFrom(ts, next) == hi - next
  {
    CountFromDistinct(ts, next);
    forall i | i in Range(next, hi)
      ensures i in IdsFrom(ts, next)
    {
      assert HasId(ts, i);
      var k :| 0 <= k < |ts| && ts[k].id == i;
    }
    assert IdsFrom(ts, next) == Range(next, hi);
  }

}
