/**
 Facts about the body of `assign_ids` for any list of requests: the sorted
 list is a permutation of the requests, each output received the id the
 claiming loop gave its request, the ids are distinct and fresh ones come
 from the counter without gaps, and each choice is greedy.
 */
module RunFacts {
  import opened StableSort
  import opened Touch
  import opened Assign

  /** The requests name valid observations and appear in input order. */
  predicate Ready(obs: seq<Observation>, rs: seq<Request>) {
    WellFormed(obs, rs) && IncreasingBy(IndexTie, rs)
  }

  /**
   Request `j` is processed before request `k`: its nearest candidate is
   strictly closer, or equally close and `j` came first in the frame.
   */
  predicate Before(rs: seq<Request>, j: nat, k: nat)
    requires j < |rs| && k < |rs|
  {
    || Lt(Priority(rs[j]), Priority(rs[k]))
    || (Priority(rs[j]) == Priority(rs[k]) && j < k)
  }

  /** Some request processed before request `k` received `id`. */
  predicate ClaimedBeforeAt(rs: seq<Request>, out: seq<Tracked>, k: nat, id: nat)
    requires |out| == |rs| && k < |rs|
  {
    exists j :: 0 <= j < |rs| && Before(rs, j, k) && out[j].id == id
  }

  /** The fresh ids, those from `next` up, received by requests processed before request `k`. */
  function FreshBeforeAt(rs: seq<Request>, out: seq<Tracked>, next: nat, k: nat): set<nat>
    requires |out| == |rs| && k < |rs|
  {
    set j | 0 <= j < |rs| && Before(rs, j, k) && next <= out[j].id :: out[j].id
  }

  /**
   Request `k` received the first of its candidates that no earlier
   processed request received, or, when all were taken, the fresh id that
   follows those handed out to earlier processed requests.
   */
  predicate GreedyAtOutput(rs: seq<Request>, out: seq<Tracked>, next: nat, k: nat)
    requires |out| == |rs| && k < |rs|
  {
    var cs := rs[k].cands;
    || (exists m :: 0 <= m < |cs| && out[k].id == cs[m].id
                    && forall l :: 0 <= l < m ==> ClaimedBeforeAt(rs, out, k, cs[l].id))
    || (out[k].id == next + |FreshBeforeAt(rs, out, next, k)|
        && forall l :: 0 <= l < |cs| ==> ClaimedBeforeAt(rs, out, k, cs[l].id))
  }

  /*
   The two directions of "the sorted list has the same elements" are kept in
   separate lemmas: together, as quantified facts, they feed each other.
   */

  /** Every element of the sorted request list is one of the requests. */
  lemma SortedFrom(rs: seq<Request>)
    ensures |Sort(Priority, rs)| == |rs|
    ensures forall p :: 0 <= p < |rs| ==> Sort(Priority, rs)[p] in rs
  {
    var order := Sort(Priority, rs);
    SortPerm(Priority, rs);
    forall p | 0 <= p < |order|
      ensures order[p] in rs
    {
      assert order[p] in multiset(rs);
    }
  }

  /** Every request is in the sorted request list. */
  lemma SortedTo(rs: seq<Request>)
    ensures |Sort(Priority, rs)| == |rs|
    ensures forall k :: 0 <= k < |rs| ==> rs[k] in Sort(Priority, rs)
  {
    var order := Sort(Priority, rs);
    SortPerm(Priority, rs);
    forall k | 0 <= k < |rs|
      ensures rs[k] in order
    {
      assert rs[k] in multiset(order);
    }
  }

  /** The sorted request list is strictly increasing in (priority, index); its indices are distinct. */
  lemma SortedRequests(rs: seq<Request>)
    requires IncreasingBy(IndexTie, rs)
    ensures |Sort(Priority, rs)| == |rs|
    ensures StrictlyLex(Priority, IndexTie, Sort(Priority, rs))
    ensures forall p, q :: 0 <= p < q < |rs| ==> Sort(Priority, rs)[p].index != Sort(Priority, rs)[q].index
  {
    var order := Sort(Priority, rs);
    SortedFrom(rs);
    SortLex(Priority, IndexTie, rs);
    forall p, q | 0 <= p < q < |order|
      ensures order[p].index != order[q].index
    {
      var j :| 0 <= j < |rs| && rs[j] == order[p];
      var j' :| 0 <= j' < |rs| && rs[j'] == order[q];
      assert order[p] != order[q];
      assert j != j';
    }
  }

  /** When every request's candidates are below `next`, so are the sorted list's. */
  lemma SortedCandsBelow(rs: seq<Request>, next: nat)
    requires CandsBelow(rs, next)
    ensures CandsBelow(Sort(Priority, rs), next)
  {
    var order := Sort(Priority, rs);
    forall p, l | 0 <= p < |order| && 0 <= l < |order[p].cands|
      ensures order[p].cands[l].id < next
    {
      SortedFrom(rs);
      var k :| 0 <= k < |rs| && rs[k] == order[p];
    }
  }

  /** On requests in input order, `Before` is the sort's (priority, index) order. */
  lemma BeforeLex(rs: seq<Request>)
    requires IncreasingBy(IndexTie, rs)
    ensures forall j, k :: 0 <= j < |rs| && 0 <= k < |rs| ==>
      (Before(rs, j, k) <==> LexLt(Priority, IndexTie, rs[j], rs[k]))
  {
    forall j, k | 0 <= j < |rs| && 0 <= k < |rs|
      ensures Before(rs, j, k) <==> LexLt(Priority, IndexTie, rs[j], rs[k])
    {
      assert j < k <==> rs[j].index < rs[k].index;
    }
  }

  lemma AlignForward(rs: seq<Request>, order: seq<Request>, labels: seq<nat>, out: seq<Tracked>)
    requires |order| == |labels| == |rs| == |out|
    requires forall k :: 0 <= k < |rs| ==> rs[k] in order
    requires forall p, q :: 0 <= p < q < |order| ==> order[p].index != order[q].index
    requires forall k :: 0 <= k < |rs| ==> rs[k].index in LabelMap(order, labels)
    requires forall k :: 0 <= k < |rs| ==> out[k].id == LabelMap(order, labels)[rs[k].index]
    ensures forall k :: 0 <= k < |rs| ==>
      exists p :: 0 <= p < |order| && order[p] == rs[k] && out[k].id == labels[p]
  {
    LabelMapDistinct(order, labels);
    forall k | 0 <= k < |rs|
      ensures exists p :: 0 <= p < |order| && order[p] == rs[k] && out[k].id == labels[p]
    {
      var p :| 0 <= p < |order| && order[p] == rs[k];
      assert LabelMap(order, labels)[order[p].index] == labels[p];
    }
  }

  lemma AlignBackward(rs: seq<Request>, order: seq<Request>, labels: seq<nat>, out: seq<Tracked>, p: nat)
    requires |order| == |labels| == |rs| == |out| && p < |order|
    requires order[p] in rs
    requires forall p, q :: 0 <= p < q < |order| ==> order[p].index != order[q].index
    requires forall k :: 0 <= k < |rs| ==> rs[k].index in LabelMap(order, labels)
    requires forall k :: 0 <= k < |rs| ==> out[k].id == LabelMap(order, labels)[rs[k].index]
    ensures exists k :: 0 <= k < |rs| && order[p] == rs[k] && out[k].id == labels[p]
  {
    LabelMapDistinct(order, labels);
    var k :| 0 <= k < |rs| && rs[k] == order[p];
    assert LabelMap(order, labels)[order[p].index] == labels[p];
  }

  /** Output `k` is request `k`, found at some position `p` of the sorted list, and got the loop's `p`-th id. */
  lemma RunForward(obs: seq<Observation>, rs: seq<Request>, next: nat, threshold: real)
    requires Ready(obs, rs)
    ensures forall k :: 0 <= k < |rs| ==>
      exists p :: 0 <= p < |rs| && Sort(Priority, rs)[p] == rs[k]
                  && Run(obs, rs, next, threshold).tracked[k].id == Claim(Sort(Priority, rs), {}, next).0[p]
  {
    var order := Sort(Priority, rs);
    var labels := Claim(order, {}, next).0;
    var out := Run(obs, rs, next, threshold).tracked;
    SortPerm(Priority, rs);
    LabelsCover(rs, order, labels);
    assert out == Emit(obs, rs, LabelMap(order, labels));
    SortedRequests(rs);
    SortedTo(rs);
    AlignForward(rs, order, labels, out);
  }

  /** Position `p` of the sorted list holds some request `k`, whose output got the loop's `p`-th id. */
  lemma RunBackward(obs: seq<Observation>, rs: seq<Request>, next: nat, threshold: real, p: nat)
    requires Ready(obs, rs) && p < |rs|
    ensures |Sort(Priority, rs)| == |rs|
    ensures exists k :: 0 <= k < |rs| && Sort(Priority, rs)[p] == rs[k]
                        && Run(obs, rs, next, threshold).tracked[k].id == Claim(Sort(Priority, rs), {}, next).0[p]
  {
    var order := Sort(Priority, rs);
    var labels := Claim(order, {}, next).0;
    var out := Run(obs, rs, next, threshold).tracked;
    SortPerm(Priority, rs);
    LabelsCover(rs, order, labels);
    assert out == Emit(obs, rs, LabelMap(order, labels));
    SortedRequests(rs);
    SortedFrom(rs);
    AlignBackward(rs, order, labels, out, p);
  }

  /** The outputs carry pairwise distinct ids. */
  lemma RunDistinct(obs: seq<Observation>, rs: seq<Request>, next: nat, threshold: real)
    requires Ready(obs, rs) && CandsBelow(rs, next)
    ensures forall j, k :: 0 <= j < k < |rs| ==>
      Run(obs, rs, next, threshold).tracked[j].id != Run(obs, rs, next, threshold).tracked[k].id
  {
    var order := Sort(Priority, rs);
    var labels := Claim(order, {}, next).0;
    var out := Run(obs, rs, next, threshold).tracked;
    SortedCandsBelow(rs, next);
    ClaimDistinct(order, {}, next);
    RunForward(obs, rs, next, threshold);
    forall j, k | 0 <= j < k < |rs|
      ensures out[j].id != out[k].id
    {
      var p :| 0 <= p < |rs| && order[p] == rs[j] && out[j].id == labels[p];
      var q :| 0 <= q < |rs| && order[q] == rs[k] && out[k].id == labels[q];
      assert rs[j].index < rs[k].index;
      assert p != q;
    }
  }

  /** Every id is below the final counter. */
  lemma RunBelowCounter(obs: seq<Observation>, rs: seq<Request>, next: nat, threshold: real)
    requires Ready(obs, rs) && CandsBelow(rs, next)
    ensures forall k :: 0 <= k < |rs| ==>
      Run(obs, rs, next, threshold).tracked[k].id < Run(obs, rs, next, threshold).state.nextId
  {
    var order := Sort(Priority, rs);
    var claim := Claim(order, {}, next);
    var r := Run(obs, rs, next, threshold);
    assert r.state.nextId == claim.1;
    SortedCandsBelow(rs, next);
    ClaimDistinct(order, {}, next);
    RunForward(obs, rs, next, threshold);
    forall k | 0 <= k < |rs|
      ensures r.tracked[k].id < claim.1
    {
      var p :| 0 <= p < |rs| && order[p] == rs[k] && r.tracked[k].id == claim.0[p];
    }
  }

  /** Every value from `next` up to the final counter is the id of some output. */
  lemma RunNoGap(obs: seq<Observation>, rs: seq<Request>, next: nat, threshold: real)
    requires Ready(obs, rs) && CandsBelow(rs, next)
    ensures forall i :: next <= i < Run(obs, rs, next, threshold).state.nextId ==>
      HasId(Run(obs, rs, next, threshold).tracked, i)
  {
    var order := Sort(Priority, rs);
    var claim := Claim(order, {}, next);
    var r := Run(obs, rs, next, threshold);
    assert r.state.nextId == claim.1;
    SortedCandsBelow(rs, next);
    ClaimDistinct(order, {}, next);
    forall i | next <= i < claim.1
      ensures HasId(r.tracked, i)
    {
      assert i in claim.0;
      var p :| 0 <= p < |claim.0| && claim.0[p] == i;
      RunBackward(obs, rs, next, threshold, p);
    }
  }

  /** An id below the counter is one of the output's own candidates. */
  lemma RunReuse(obs: seq<Observation>, rs: seq<Request>, next: nat, threshold: real)
    requires Ready(obs, rs) && CandsBelow(rs, next)
    ensures forall k :: 0 <= k < |rs| && Run(obs, rs, next, threshold).tracked[k].id < next ==>
      exists m :: 0 <= m < |rs[k].cands| && Run(obs, rs, next, threshold).tracked[k].id == rs[k].cands[m].id
  {
    var order := Sort(Priority, rs);
    var out := Run(obs, rs, next, threshold).tracked;
    SortedCandsBelow(rs, next);
    ClaimGreedy(order, {}, next);
    RunForward(obs, rs, next, threshold);
    forall k | 0 <= k < |rs| && out[k].id < next
      ensures exists m :: 0 <= m < |rs[k].cands| && out[k].id == rs[k].cands[m].id
    {
      var p :| 0 <= p < |rs| && order[p] == rs[k] && out[k].id == Claim(order, {}, next).0[p];
      ReusedIsCandidate(order, next, p);
    }
  }

  /** A label below the counter is one of its request's candidates. */
  lemma ReusedIsCandidate(order: seq<Request>, next: nat, p: nat)
    requires p < |order| && GreedyAt(order, {}, next, p)
    requires Claim(order, {}, next).0[p] < next
    ensures exists m :: 0 <= m < |order[p].cands| && Claim(order, {}, next).0[p] == order[p].cands[m].id
  {
  }

  /** The ids claimed before position `p` of the sorted list went to requests processed before request `k`. */
  lemma PrefixClaimed(obs: seq<Observation>, rs: seq<Request>, next: nat, threshold: real, k: nat, p: nat)
    requires Ready(obs, rs) && k < |rs| && p < |rs|
    requires Sort(Priority, rs)[p] == rs[k]
    ensures forall x :: x in Prefix(Claim(Sort(Priority, rs), {}, next).0, p) ==>
      ClaimedBeforeAt(rs, Run(obs, rs, next, threshold).tracked, k, x)
  {
    var order := Sort(Priority, rs);
    var labels := Claim(order, {}, next).0;
    var out := Run(obs, rs, next, threshold).tracked;
    SortedRequests(rs);
    BeforeLex(rs);
    forall x | x in Prefix(labels, p)
      ensures ClaimedBeforeAt(rs, out, k, x)
    {
      var q :| 0 <= q < p && labels[q] == x;
      RunBackward(obs, rs, next, threshold, q);
      var j :| 0 <= j < |rs| && order[q] == rs[j] && out[j].id == labels[q];
      assert LexLt(Priority, IndexTie, order[q], order[p]);
      assert Before(rs, j, k);
    }
  }

  /** Every id received by a request processed before request `k` was claimed before position `p` of the sorted list. */
  lemma ClaimedInPrefix(obs: seq<Observation>, rs: seq<Request>, next: nat, threshold: real, k: nat, p: nat)
    requires Ready(obs, rs) && k < |rs| && p < |rs|
    requires Sort(Priority, rs)[p] == rs[k]
    ensures forall j :: 0 <= j < |rs| && Before(rs, j, k) ==>
      Run(obs, rs, next, threshold).tracked[j].id in Prefix(Claim(Sort(Priority, rs), {}, next).0, p)
  {
    var order := Sort(Priority, rs);
    var labels := Claim(order, {}, next).0;
    var out := Run(obs, rs, next, threshold).tracked;
    SortedRequests(rs);
    BeforeLex(rs);
    RunForward(obs, rs, next, threshold);
    forall j | 0 <= j < |rs| && Before(rs, j, k)
      ensures out[j].id in Prefix(labels, p)
    {
      var q :| 0 <= q < |rs| && order[q] == rs[j] && out[j].id == labels[q];
      LexPosition(order, q, p);
    }
  }

  /** In a strictly increasing list, an element that is smaller sits at an earlier position. */
  lemma LexPosition(order: seq<Request>, q: nat, p: nat)
    requires q < |order| && p < |order|
    requires StrictlyLex(Priority, IndexTie, order)
    requires LexLt(Priority, IndexTie, order[q], order[p])
    ensures q < p
  {
  }

  /** The fresh ids claimed before position `p` are those of the requests processed before request `k`. */
  lemma FreshPrefix(obs: seq<Observation>, rs: seq<Request>, next: nat, threshold: real, k: nat, p: nat)
    requires Ready(obs, rs) && k < |rs| && p < |rs|
    requires Sort(Priority, rs)[p] == rs[k]
    ensures FreshIn(Prefix(Claim(Sort(Priority, rs), {}, next).0, p), next)
      == FreshBeforeAt(rs, Run(obs, rs, next, threshold).tracked, next, k)
  {
    var labels := Claim(Sort(Priority, rs), {}, next).0;
    var out := Run(obs, rs, next, threshold).tracked;
    PrefixClaimed(obs, rs, next, threshold, k, p);
    ClaimedInPrefix(obs, rs, next, threshold, k, p);
    forall x | x in FreshIn(Prefix(labels, p), next)
      ensures x in FreshBeforeAt(rs, out, next, k)
    {
      assert ClaimedBeforeAt(rs, out, k, x);
      var j :| 0 <= j < |rs| && Before(rs, j, k) && out[j].id == x;
    }
  }

  /** The loop's step for request `k`, read on the outputs, is the greedy choice. */
  lemma GreedyFromLoop(rs: seq<Request>, out: seq<Tracked>, next: nat, k: nat, used: set<nat>)
    requires |out| == |rs| && k < |rs|
    requires forall x :: x in used ==> ClaimedBeforeAt(rs, out, k, x)
    requires FreshIn(used, next) == FreshBeforeAt(rs, out, next, k)
    requires var cs := rs[k].cands; var m := FirstFree(cs, used);
      || (m < |cs| && out[k].id == cs[m].id)
      || (m == |cs| && out[k].id == next + |FreshIn(used, next)|)
    ensures GreedyAtOutput(rs, out, next, k)
  {
    var cs := rs[k].cands;
    var m := FirstFree(cs, used);
    assert forall l :: 0 <= l < m ==> ClaimedBeforeAt(rs, out, k, cs[l].id);
  }

  lemma RunGreedyAt(obs: seq<Observation>, rs: seq<Request>, next: nat, threshold: real, k: nat)
    requires Ready(obs, rs) && CandsBelow(rs, next) && k < |rs|
    ensures GreedyAtOutput(rs, Run(obs, rs, next, threshold).tracked, next, k)
  {
    var order := Sort(Priority, rs);
    var labels := Claim(order, {}, next).0;
    var out := Run(obs, rs, next, threshold).tracked;
    SortedCandsBelow(rs, next);
    ClaimGreedy(order, {}, next);
    RunForward(obs, rs, next, threshold);
    var p :| 0 <= p < |rs| && order[p] == rs[k] && out[k].id == labels[p];
    assert GreedyAt(order, {}, next, p);
    assert {} + Prefix(labels, p) == Prefix(labels, p);
    PrefixClaimed(obs, rs, next, threshold, k, p);
    FreshPrefix(obs, rs, next, threshold, k, p);
    GreedyFromLoop(rs, out, next, k, Prefix(labels, p));
  }

  /** Every output's id is the greedy choice. */
  lemma RunGreedy(obs: seq<Observation>, rs: seq<Request>, next: nat, threshold: real)
    requires Ready(obs, rs) && CandsBelow(rs, next)
    ensures forall k :: 0 <= k < |rs| ==> GreedyAtOutput(rs, Run(obs, rs, next, threshold).tracked, next, k)
  {
    forall k | 0 <= k < |rs|
      ensures GreedyAtOutput(rs, Run(obs, rs, next, threshold).tracked, next, k)
    {
      RunGreedyAt(obs, rs, next, threshold, k);
    }
  }

  /** With no candidates at all, the outputs get `next`, `next + 1`, ... in input order. */
  lemma RunAllFresh(obs: seq<Observation>, rs: seq<Request>, next: nat, threshold: real)
    requires Ready(obs, rs)
    requires forall k :: 0 <= k < |rs| ==> |rs[k].cands| == 0
    ensures forall k :: 0 <= k < |rs| ==> Run(obs, rs, next, threshold).tracked[k].id == next + k
    ensures Run(obs, rs, next, threshold).state.nextId == next + |rs|
  {
    assert forall q :: 0 <= q < |rs| ==> Priority(rs[q]) == Inf;
    SortEqualKeys(Priority, Inf, rs);
    var labels := Claim(rs, {}, next).0;
    ClaimAllFresh(rs, {}, next);
    LabelsCover(rs, rs, labels);
    LabelMapDistinct(rs, labels);
    assert Run(obs, rs, next, threshold).tracked == Emit(obs, rs, LabelMap(rs, labels));
  }

}
