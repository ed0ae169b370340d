/**
 What `assign_ids` promises about one frame, stated on its output: ids are
 distinct, a reused id was within the threshold, fresh ids come from the
 counter in one unbroken run, the active map is replaced by the frame's
 own, and every touch got the greedy choice by nearest distance.
 */
module AssignTheorems {
  import opened StableSort
  import opened Touch
  import opened CandidateList
  import opened Assign
  import opened RunFacts

  /** The nearest-candidate distance of a tracked touch against the state it was matched in. */
  function Rank(s: Tracker, t: Tracked): Ext {
    Nearest(Candidates(s.active, s.threshold, t.pos))
  }

  /**
   Touch `j` of a frame's output is processed before touch `k`: its nearest
   candidate is strictly closer, or equally close and `j` came first.
   */
  predicate Precedes(s: Tracker, out: seq<Tracked>, j: nat, k: nat)
    requires j < |out| && k < |out|
  {
    || Lt(Rank(s, out[j]), Rank(s, out[k]))
    || (Rank(s, out[j]) == Rank(s, out[k]) && j < k)
  }

  /** Some touch processed before touch `k` received `id`. */
  predicate ClaimedBefore(s: Tracker, out: seq<Tracked>, k: nat, id: nat)
    requires k < |out|
  {
    exists j :: 0 <= j < |out| && Precedes(s, out, j, k) && out[j].id == id
  }

  /** The fresh ids, those from the counter up, received by touches processed before touch `k`. */
  function FreshBefore(s: Tracker, out: seq<Tracked>, k: nat): set<nat>
    requires k < |out|
  {
    set j | 0 <= j < |out| && Precedes(s, out, j, k) && s.nextId <= out[j].id :: out[j].id
  }

  /**
   Touch `k` received the first of its candidates that no touch processed
   before it received, or, when every candidate was taken, the counter's
   value after the fresh ids handed out to touches processed before it.
   */
  predicate GreedyChoice(s: Tracker, out: seq<Tracked>, k: nat)
    requires k < |out|
  {
    var cs := Candidates(s.active, s.threshold, out[k].pos);
    || (exists m :: 0 <= m < |cs| && out[k].id == cs[m].id
                    && forall l :: 0 <= l < m ==> ClaimedBefore(s, out, k, cs[l].id))
    || (out[k].id == s.nextId + |FreshBefore(s, out, k)|
        && forall l :: 0 <= l < |cs| ==> ClaimedBefore(s, out, k, cs[l].id))
  }

  /** Under `Inv`, every candidate id of the frame's requests is below the counter. */
  lemma RequestsBelow(s: Tracker, obs: seq<Observation>)
    requires Inv(s)
    ensures CandsBelow(Requests(s, obs), s.nextId)
  {
    var rs := Requests(s, obs);
    forall k, l | 0 <= k < |rs| && 0 <= l < |rs[k].cands|
      ensures rs[k].cands[l].id < s.nextId
    {
      CandidatesSpec(s.active, s.threshold, obs[rs[k].index].pos.value);
      assert rs[k].cands[l] in rs[k].cands;
    }
  }

  /** The candidate list of output `k` is that of request `k`. */
  lemma OutputCands(s: Tracker, obs: seq<Observation>)
    ensures |AssignIds(s, obs).tracked| == |Requests(s, obs)|
    ensures forall k :: 0 <= k < |Requests(s, obs)| ==>
      Requests(s, obs)[k].cands == Candidates(s.active, s.threshold, AssignIds(s, obs).tracked[k].pos)
  {
    var rs := Requests(s, obs);
    var out := AssignIds(s, obs).tracked;
    forall k | 0 <= k < |rs|
      ensures out[k].pos == obs[rs[k].index].pos.value
    {
      assert Untag(out[k]) == obs[rs[k].index];
    }
  }

  /** No two touches of a frame share an id. */
  lemma AssignDistinct(s: Tracker, obs: seq<Observation>)
    requires Inv(s)
    ensures forall j, k :: 0 <= j < k < |AssignIds(s, obs).tracked| ==>
      AssignIds(s, obs).tracked[j].id != AssignIds(s, obs).tracked[k].id
  {
    RequestsBelow(s, obs);
    RunDistinct(obs, Requests(s, obs), s.nextId, s.threshold);
  }

  /**
   A touch keeps an existing id exactly when its id is below the counter,
   and then the id's last position is strictly within the threshold.
   */
  lemma AssignReuse(s: Tracker, obs: seq<Observation>)
    requires Inv(s)
    ensures forall k :: 0 <= k < |AssignIds(s, obs).tracked| ==>
      (AssignIds(s, obs).tracked[k].id in s.active <==> AssignIds(s, obs).tracked[k].id < s.nextId)
    ensures forall k :: 0 <= k < |AssignIds(s, obs).tracked| && AssignIds(s, obs).tracked[k].id in s.active ==>
      Dist(s.active[AssignIds(s, obs).tracked[k].id], AssignIds(s, obs).tracked[k].pos) < s.threshold
  {
    RequestsBelow(s, obs);
    RunReuse(obs, Requests(s, obs), s.nextId, s.threshold);
    OutputCands(s, obs);
    ReuseFromCands(s, Requests(s, obs), AssignIds(s, obs).tracked);
  }

  lemma ReuseFromCands(s: Tracker, rs: seq<Request>, out: seq<Tracked>)
    requires Inv(s) && |out| == |rs|
    requires forall k :: 0 <= k < |rs| ==> rs[k].cands == Candidates(s.active, s.threshold, out[k].pos)
    requires forall k :: 0 <= k < |rs| && out[k].id < s.nextId ==>
      exists m :: 0 <= m < |rs[k].cands| && out[k].id == rs[k].cands[m].id
    ensures forall k :: 0 <= k < |out| ==> (out[k].id in s.active <==> out[k].id < s.nextId)
    ensures forall k :: 0 <= k < |out| && out[k].id in s.active ==>
      Dist(s.active[out[k].id], out[k].pos) < s.threshold
  {
    forall k | 0 <= k < |out| && out[k].id < s.nextId
      ensures out[k].id in s.active && Dist(s.active[out[k].id], out[k].pos) < s.threshold
    {
      var m :| 0 <= m < |rs[k].cands| && out[k].id == rs[k].cands[m].id;
      CandidatesSpec(s.active, s.threshold, out[k].pos);
      assert rs[k].cands[m] in rs[k].cands;
    }
  }

  /** Every id handed out is below the new counter. */
  lemma AssignBelowCounter(s: Tracker, obs: seq<Observation>)
    requires Inv(s)
    ensures forall k :: 0 <= k < |AssignIds(s, obs).tracked| ==>
      AssignIds(s, obs).tracked[k].id < AssignIds(s, obs).state.nextId
  {
    RequestsBelow(s, obs);
    RunBelowCounter(obs, Requests(s, obs), s.nextId, s.threshold);
  }

  /** Every counter value consumed by the frame is the id of one of its touches. */
  lemma AssignNoGap(s: Tracker, obs: seq<Observation>)
    requires Inv(s)
    ensures forall i :: s.nextId <= i < AssignIds(s, obs).state.nextId ==>
      HasId(AssignIds(s, obs).tracked, i)
  {
    RequestsBelow(s, obs);
    RunNoGap(obs, Requests(s, obs), s.nextId, s.threshold);
  }

  /** The counter advances by exactly the number of fresh ids handed out. */
  lemma AssignCounter(s: Tracker, obs: seq<Observation>)
    requires Inv(s)
    ensures AssignIds(s, obs).state.nextId == s.nextId + CountFrom(AssignIds(s, obs).tracked, s.nextId)
  {
    AssignDistinct(s, obs);
    AssignBelowCounter(s, obs);
    AssignNoGap(s, obs);
    CountFromRange(AssignIds(s, obs).tracked, s.nextId, AssignIds(s, obs).state.nextId);
  }

  /**
   The new active map is exactly the frame's id to position map: ids not
   matched this frame are dropped.
   */
  lemma AssignActive(s: Tracker, obs: seq<Observation>)
    requires Inv(s)
    ensures forall id :: id in AssignIds(s, obs).state.active <==> HasId(AssignIds(s, obs).tracked, id)
    ensures forall k :: 0 <= k < |AssignIds(s, obs).tracked| ==>
      AssignIds(s, obs).tracked[k].id in AssignIds(s, obs).state.active
      && AssignIds(s, obs).state.active[AssignIds(s, obs).tracked[k].id] == AssignIds(s, obs).tracked[k].pos
    ensures |AssignIds(s, obs).state.active| == |AssignIds(s, obs).tracked|
  {
    var out := AssignIds(s, obs).tracked;
    assert AssignIds(s, obs).state.active == ToActive(out);
    AssignDistinct(s, obs);
    ToActiveKeys(out);
    ToActiveDistinct(out);
  }

  /** `assign_ids` preserves the invariant. */
  lemma AssignKeepsInv(s: Tracker, obs: seq<Observation>)
    requires Inv(s)
    ensures Inv(AssignIds(s, obs).state)
  {
    AssignActive(s, obs);
    AssignBelowCounter(s, obs);
    InvFromOutputs(AssignIds(s, obs));
  }

  lemma InvFromOutputs(r: Assignment)
    requires forall id :: id in r.state.active ==> HasId(r.tracked, id)
    requires forall k :: 0 <= k < |r.tracked| ==> r.tracked[k].id < r.state.nextId
    ensures Inv(r.state)
  {
    forall id | id in r.state.active
      ensures id < r.state.nextId
    {
      var k :| 0 <= k < |r.tracked| && r.tracked[k].id == id;
    }
  }

  /** With output `k` carrying request `k`'s candidates, the greedy step reads the same on either. */
  lemma GreedyTransfer(s: Tracker, rs: seq<Request>, out: seq<Tracked>)
    requires |out| == |rs|
    requires forall k :: 0 <= k < |rs| ==> rs[k].cands == Candidates(s.active, s.threshold, out[k].pos)
    requires forall k :: 0 <= k < |rs| ==> GreedyAtOutput(rs, out, s.nextId, k)
    ensures forall k :: 0 <= k < |out| ==> GreedyChoice(s, out, k)
  {
    forall k | 0 <= k < |out|
      ensures GreedyChoice(s, out, k)
    {
      assert forall j :: 0 <= j < |rs| ==> (Before(rs, j, k) <==> Precedes(s, out, j, k)) by {
        forall j | 0 <= j < |rs|
          ensures Before(rs, j, k) <==> Precedes(s, out, j, k)
        {
          assert Priority(rs[j]) == Rank(s, out[j]) && Priority(rs[k]) == Rank(s, out[k]);
        }
      }
      forall id | ClaimedBeforeAt(rs, out, k, id)
        ensures ClaimedBefore(s, out, k, id)
      {
        var j :| 0 <= j < |rs| && Before(rs, j, k) && out[j].id == id;
      }
      assert FreshBefore(s, out, k) == FreshBeforeAt(rs, out, s.nextId, k);
      assert GreedyAtOutput(rs, out, s.nextId, k);
    }
  }

  /** Every touch of the frame got the greedy choice. */
  lemma AssignGreedy(s: Tracker, obs: seq<Observation>)
    requires Inv(s)
    ensures forall k :: 0 <= k < |AssignIds(s, obs).tracked| ==> GreedyChoice(s, AssignIds(s, obs).tracked, k)
  {
    RequestsBelow(s, obs);
    RunGreedy(obs, Requests(s, obs), s.nextId, s.threshold);
    OutputCands(s, obs);
    GreedyTransfer(s, Requests(s, obs), AssignIds(s, obs).tracked);
  }

  /**
   With no active touches (after `Init` or `clear`) every valid observation
   gets a fresh id, counting up from the counter in input order.
   */
  lemma AssignFromEmpty(s: Tracker, obs: seq<Observation>)
    requires s.active == map[]
    ensures forall k :: 0 <= k < |AssignIds(s, obs).tracked| ==> AssignIds(s, obs).tracked[k].id == s.nextId + k
    ensures AssignIds(s, obs).state.nextId == s.nextId + |ValidOnly(obs)|
  {
    var rs := Requests(s, obs);
    forall k | 0 <= k < |rs|
      ensures |rs[k].cands| == 0
    {
      NoCandidates(s.threshold, obs[rs[k].index].pos.value);
    }
    RunAllFresh(obs, rs, s.nextId, s.threshold);
  }

  /**
   A frame right after `clear` keeps no old id: the touches get the counter's
   next values in input order, and the counter moves past them.
   */
  lemma ClearThenFresh(s: Tracker, obs: seq<Observation>)
    ensures forall k :: 0 <= k < |AssignIds(Clear(s), obs).tracked| ==>
      AssignIds(Clear(s), obs).tracked[k].id == s.nextId + k
    ensures AssignIds(Clear(s), obs).state.nextId == s.nextId + |ValidOnly(obs)|
  {
    AssignFromEmpty(Clear(s), obs);
  }

}
