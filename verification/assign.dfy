/**
 `TouchTracker.assign_ids`: global greedy matching of one frame's touches
 to the active ids, nearest pairs first.
 */
module Assign {
  import opened StableSort
  import opened Touch
  import opened CandidateList

  /** An entry `(new_index, sorted_old)` of `new_to_old`. */
  datatype Request = Request(index: nat, cands: seq<Cand>)

  /** The result of one call: the tracked touches and the tracker's next state. */
  datatype Assignment = Assignment(tracked: seq<Tracked>, state: Tracker)

  /** The distance to the nearest candidate, +infinity when there is none. */
  function Nearest(cs: seq<Cand>): Ext {
    if |cs| == 0 then Inf else Fin(cs[0].dist)
  }

  /** The sort key of `new_to_old`. */
  function Priority(r: Request): Ext {
    Nearest(r.cands)
  }

  function IndexTie(r: Request): int {
    r.index
  }

  /** Each request names a valid observation of the frame. */
  predicate WellFormed(obs: seq<Observation>, rs: seq<Request>) {
    forall k :: 0 <= k < |rs| ==> rs[k].index < |obs| && Valid(obs[rs[k].index])
  }

  /**
   `new_to_old` as first built: one request per valid observation, in input
   order, holding that observation's candidate list.
   */
  function Requests(s: Tracker, obs: seq<Observation>): (rs: seq<Request>)
    ensures |rs| == |ValidOnly(obs)|
    ensures WellFormed(obs, rs) && IncreasingBy(IndexTie, rs)
    ensures forall k :: 0 <= k < |rs| ==> obs[rs[k].index] == ValidOnly(obs)[k]
    ensures forall k :: 0 <= k < |rs| ==>
      rs[k].cands == Candidates(s.active, s.threshold, obs[rs[k].index].pos.value)
  {
    ValidIndicesSpec(obs);
    var vi := ValidIndices(obs);
    assert forall k :: 0 <= k < |vi| ==> Valid(obs[vi[k]]);
    var rs := seq(|vi|, k requires 0 <= k < |vi| =>
      Request(vi[k], Candidates(s.active, s.threshold, obs[vi[k]].pos.value)));
    assert forall k :: 0 <= k < |rs| ==> rs[k].index == vi[k];
    rs
  }

  /**
   The walk along a candidate list: the position of the first candidate
   whose id is not in `used`, or `|cs|` when every one is.
   */
  function FirstFree(cs: seq<Cand>, used: set<nat>): (m: nat)
    ensures m <= |cs|
    ensures forall l :: 0 <= l < m ==> cs[l].id in used
    ensures m < |cs| ==> cs[m].id !in used
  {
    if |cs| == 0 || cs[0].id !in used then 0
    else 1 + FirstFree(cs[1..], used)
  }

  /**
   The claiming loop over the sorted `new_to_old`. Each request takes its
   first unclaimed candidate or else the fresh id `next`; either way the id
   joins `used`. Returns the id of each request, aligned with `order`, and
   the final counter.
   */
  function Claim(order: seq<Request>, used: set<nat>, next: nat): (r: (seq<nat>, nat))
    ensures |r.0| == |order|
    ensures next <= r.1
  {
    if |order| == 0 then ([], next)
    else
      var cs := order[0].cands;
      var m := FirstFree(cs, used);
      if m < |cs| then
        var rest := Claim(order[1..], used + {cs[m].id}, next);
        ([cs[m].id] + rest.0, rest.1)
      else
        var rest := Claim(order[1..], used + {next}, next + 1);
        ([next] + rest.0, rest.1)
  }

  /** `matched` as a map from input position to id. */
  function LabelMap(order: seq<Request>, labels: seq<nat>): (ids: map<nat, nat>)
    requires |labels| == |order|
  {
    if |order| == 0 then map[]
    else LabelMap(order[1..], labels[1..])[order[0].index := labels[0]]
  }

  lemma {:induction false} LabelMapKeys(order: seq<Request>, labels: seq<nat>)
    requires |labels| == |order|
    ensures forall p :: 0 <= p < |order| ==> order[p].index in LabelMap(order, labels)
  {
    if |order| > 0 {
      LabelMapKeys(order[1..], labels[1..]);
      assert forall p :: 1 <= p < |order| ==> order[1..][p - 1] == order[p];
    }
  }

  /** Every request gets an id: `matched` has no hole at a valid position. */
  lemma LabelsCover(rs: seq<Request>, order: seq<Request>, labels: seq<nat>)
    requires multiset(order) == multiset(rs)
    requires |labels| == |order|
    ensures forall k :: 0 <= k < |rs| ==> rs[k].index in LabelMap(order, labels)
  {
    LabelMapKeys(order, labels);
    forall k | 0 <= k < |rs|
      ensures rs[k].index in LabelMap(order, labels)
    {
      assert rs[k] in multiset(order);
      var p :| 0 <= p < |order| && order[p] == rs[k];
    }
  }

  /**
   The body of `assign_ids` once `new_to_old` is built: sort the requests
   by nearest distance, run the claiming loop from counter `next`, emit the
   observations with their ids in input order, and keep this frame's id to
   position map as the next active map.
   */
  function Run(obs: seq<Observation>, rs: seq<Request>, next: nat, threshold: real): (r: Assignment)
    requires WellFormed(obs, rs)
    ensures |r.tracked| == |rs|
    ensures forall k :: 0 <= k < |rs| ==> Untag(r.tracked[k]) == obs[rs[k].index]
    ensures r.state.threshold == threshold && next <= r.state.nextId
  {
    var order := Sort(Priority, rs);
    var claim := Claim(order, {}, next);
    SortPerm(Priority, rs);
    LabelsCover(rs, order, claim.0);
    var out := Emit(obs, rs, LabelMap(order, claim.0));
    Assignment(out, Tracker(claim.1, ToActive(out), threshold))
  }

  /**
   `assign_ids`: one tracked touch per valid observation, carrying that
   observation's position, pressure and remaining fields in input order.
   */
  function AssignIds(s: Tracker, obs: seq<Observation>): (r: Assignment)
    ensures |r.tracked| == |ValidOnly(obs)|
    ensures forall k :: 0 <= k < |r.tracked| ==> Untag(r.tracked[k]) == ValidOnly(obs)[k]
    ensures r.state.threshold == s.threshold
    ensures s.nextId <= r.state.nextId
  {
    Run(obs, Requests(s, obs), s.nextId, s.threshold)
  }

  /**
   `[m for m in matched if m is not None]`: one output per request, in the
   requests' order, carrying the id matched to its frame position and
   giving back that position's observation unchanged when the id is dropped.
   */
  function Emit(obs: seq<Observation>, rs: seq<Request>, ids: map<nat, nat>): (out: seq<Tracked>)
    requires WellFormed(obs, rs)
    requires forall k :: 0 <= k < |rs| ==> rs[k].index in ids
    ensures |out| == |rs|
    ensures forall k :: 0 <= k < |rs| ==> out[k].id == ids[rs[k].index] && Untag(out[k]) == obs[rs[k].index]
  {
    seq(|rs|, k requires 0 <= k < |rs| => Tag(obs[rs[k].index], ids[rs[k].index]))
  }

  /** The ids claimed by the first `p` requests. */
  function Prefix(labels: seq<nat>, p: nat): set<nat>
    requires p <= |labels|
  {
    set q | 0 <= q < p :: labels[q]
  }

  lemma PrefixShift(labels: seq<nat>, p: nat)
    requires 1 <= p <= |labels|
    ensures Prefix(labels, p) == {labels[0]} + Prefix(labels[1..], p - 1)
  {
    forall x | x in Prefix(labels, p)
      ensures x in {labels[0]} + Prefix(labels[1..], p - 1)
    {
      var q :| 0 <= q < p && labels[q] == x;
      if q > 0 {
        assert labels[1..][q - 1] == x;
      }
    }
    forall x | x in Prefix(labels[1..], p - 1)
      ensures x in Prefix(labels, p)
    {
      var q :| 0 <= q < p - 1 && labels[1..][q] == x;
      assert labels[q + 1] == x;
    }
  }

  /** Every candidate id of every request is below `next`. */
  predicate CandsBelow(order: seq<Request>, next: nat) {
    forall p, l :: 0 <= p < |order| && 0 <= l < |order[p].cands| ==> order[p].cands[l].id < next
  }

  lemma CandsBelowTail(order: seq<Request>, next: nat, next': nat)
    requires |order| > 0 && next <= next'
    requires CandsBelow(order, next)
    ensures CandsBelow(order[1..], next')
  {
    assert forall p :: 1 <= p < |order| ==> order[1..][p - 1] == order[p];
  }

  /** The ids of `taken` that came from a counter started at `next`. */
  function FreshIn(taken: set<nat>, next: nat): set<nat> {
    set x | x in taken && next <= x
  }

  /** Taking `next` itself moves one id from the counter's side below the counter. */
  lemma FreshInStep(taken: set<nat>, next: nat)
    requires next in taken
    ensures |FreshIn(taken, next)| == |FreshIn(taken, next + 1)| + 1
  {
    assert FreshIn(taken, next) == FreshIn(taken, next + 1) + {next};
  }

  /**
   Request `p` of the loop receives the first candidate not claimed before
   it (by `used` or by an earlier request), or, when there is none, the
   counter's value at that point: `next` plus the number of fresh ids
   already handed out.
   */
  predicate GreedyAt(order: seq<Request>, used: set<nat>, next: nat, p: nat)
    requires p < |order|
  {
    var r := Claim(order, used, next);
    var taken := used + Prefix(r.0, p);
    var m := FirstFree(order[p].cands, taken);
    || (m < |order[p].cands| && r.0[p] == order[p].cands[m].id)
    || (m == |order[p].cands| && r.0[p] == next + |FreshIn(taken, next)| && r.0[p] < r.1)
  }

  /** The greedy step holds for every request of the loop. */
  lemma {:induction false} ClaimGreedy(order: seq<Request>, used: set<nat>, next: nat)
    requires CandsBelow(order, next)
    requires forall u :: u in used ==> u < next
    ensures forall p :: 0 <= p < |order| ==> GreedyAt(order, used, next, p)
  {
    if |order| > 0 {
      var cs := order[0].cands;
      var m := FirstFree(cs, used);
      var used' := if m < |cs| then used + {cs[m].id} else used + {next};
      var next' := if m < |cs| then next else next + 1;
      CandsBelowTail(order, next, next');
      ClaimGreedy(order[1..], used', next');
      var r := Claim(order, used, next);
      var rest := Claim(order[1..], used', next');
      assert r.0 == [r.0[0]] + rest.0 && r.1 == rest.1;
      assert GreedyAt(order, used, next, 0) by {
        assert Prefix(r.0, 0) == {};
        assert FreshIn(used, next) == {};
      }
      forall p | 1 <= p < |order|
        ensures GreedyAt(order, used, next, p)
      {
        PrefixShift(r.0, p);
        assert r.0[1..] == rest.0;
        var taken := used + Prefix(r.0, p);
        assert taken == used' + Prefix(rest.0, p - 1);
        assert GreedyAt(order[1..], used', next', p - 1);
        assert order[1..][p - 1] == order[p];
        if m == |cs| {
          FreshInStep(taken, next);
        }
      }
    }
  }

  /**
   The ids handed out by the loop are pairwise distinct and not in `used`;
   all are below the final counter, and every value from `next` up to the
   final counter is handed out.
   */
  lemma {:induction false} ClaimDistinct(order: seq<Request>, used: set<nat>, next: nat)
    requires CandsBelow(order, next)
    requires forall u :: u in used ==> u < next
    ensures forall p :: 0 <= p < |order| ==> Claim(order, used, next).0[p] !in used
    ensures forall p :: 0 <= p < |order| ==> Claim(order, used, next).0[p] < Claim(order, used, next).1
    ensures forall p, q :: 0 <= q < p < |order| ==> Claim(order, used, next).0[q] != Claim(order, used, next).0[p]
    ensures forall i :: next <= i < Claim(order, used, next).1 ==> i in Claim(order, used, next).0
  {
    if |order| > 0 {
      var cs := order[0].cands;
      var m := FirstFree(cs, used);
      var used' := if m < |cs| then used + {cs[m].id} else used + {next};
      var next' := if m < |cs| then next else next + 1;
      CandsBelowTail(order, next, next');
      ClaimDistinct(order[1..], used', next');
      var r := Claim(order, used, next);
      var rest := Claim(order[1..], used', next');
      assert r.0 == [r.0[0]] + rest.0 && r.1 == rest.1;
      assert r.0[0] in used' && r.0[0] !in used;
      assert forall p :: 1 <= p < |order| ==> r.0[p] == rest.0[p - 1];
      forall i | next <= i < r.1
        ensures i in r.0
      {
        if i >= next' {
          assert i in rest.0;
        } else {
          assert r.0[0] == i;
        }
      }
    }
  }

  /** Without candidates every request takes the next fresh id, in order. */
  lemma {:induction false} ClaimAllFresh(order: seq<Request>, used: set<nat>, next: nat)
    requires forall p :: 0 <= p < |order| ==> |order[p].cands| == 0
    ensures var r := Claim(order, used, next);
      r.1 == next + |order| && forall p :: 0 <= p < |order| ==> r.0[p] == next + p
  {
    if |order| > 0 {
      assert forall p :: 1 <= p < |order| ==> order[1..][p - 1] == order[p];
      ClaimAllFresh(order[1..], used + {next}, next + 1);
    }
  }

  /** With distinct indices, `matched[index]` is the id the loop gave that request. */
  lemma {:induction false} LabelMapDistinct(order: seq<Request>, labels: seq<nat>)
    requires |labels| == |order|
    requires forall p, q :: 0 <= p < q < |order| ==> order[p].index != order[q].index
    ensures forall p :: 0 <= p < |order| ==> order[p].index in LabelMap(order, labels)
    ensures forall p :: 0 <= p < |order| ==> LabelMap(order, labels)[order[p].index] == labels[p]
  {
    if |order| > 0 {
      assert forall p :: 1 <= p < |order| ==> order[1..][p - 1] == order[p];
      LabelMapDistinct(order[1..], labels[1..]);
    }
  }

}
