/**
 Worked frames, derived from the general theorems: a case where the two
 matchers differ, fresh ids handed out in processing order, and the
 threshold boundary.
 */
module Scenarios {
  import opened Options
  import opened StableSort
  import opened Touch
  import opened CandidateList
  import opened Assign
  import opened AssignTheorems
  import opened FirstCome

  /** A finger slot with a position and nothing else. */
  function At(pos: real): Observation {
    Observation(Some(pos), None, [])
  }

  /** Two touches, the second nearer to the one active finger. */
  function TwoTouches(): seq<Observation> {
    [At(0.2), At(0.12)]
  }

  lemma TwoTouchesValid()
    ensures ValidOnly(TwoTouches()) == TwoTouches()
  {

  }

  /** With one active id within the threshold, it is the only candidate. */
  lemma SingleCandidate(active: map<nat, real>, threshold: real, pos: real, id: nat)
    requires id in active && Dist(active[id], pos) < threshold
    requires forall j :: j in active ==> j == id
    ensures Candidates(active, threshold, pos) == [Cand(Dist(active[id], pos), id)]
  {
    var c := Cand(Dist(active[id], pos), id);
    var cs := Candidates(active, threshold, pos);
    CandidatesSpec(active, threshold, pos);
    FirstTwo(cs);
    assert c in cs;
    assert forall l :: 0 <= l < |cs| ==> cs[l] == c;
    assert !LexLt(DistKey, IdTie, c, c);
    assert |cs| < 2;
  }

  lemma FirstTwo(cs: seq<Cand>)
    requires StrictlyLex(DistKey, IdTie, cs)
    ensures |cs| >= 2 ==> LexLt(DistKey, IdTie, cs[0], cs[1])
  {
  }

  /**
   Finger 0 was at 0.1; the new touches are at 0.2 and 0.12, both within
   the threshold 0.3. The shipped matcher gives id 0 to the nearer second
   touch and a fresh id to the first.
   */
  lemma NearerTouchKeepsId(s: Tracker, obs: seq<Observation>)
    requires OneFinger(s, 0.1, 0.3) && obs == TwoTouches()
    ensures AssignIds(s, obs).tracked == [Tracked(1, 0.2, None, []), Tracked(0, 0.12, None, [])]
  {
    NearerTouchFacts(s, obs);
    NearerTouchDeduced(s, AssignIds(s, obs));
  }

  /** Finger 0 alone is active, at `pos`; the counter is at 1. */
  predicate OneFinger(s: Tracker, pos: real, threshold: real) {
    && s.nextId == 1 && s.threshold == threshold
    && 0 in s.active && s.active[0] == pos
    && forall j :: j in s.active ==> j == 0
  }

  /** What the general theorems say about this frame. */
  lemma NearerTouchFacts(s: Tracker, obs: seq<Observation>)
    requires OneFinger(s, 0.1, 0.3) && obs == TwoTouches()
    ensures var out := AssignIds(s, obs).tracked;
      && |out| == 2 && Untag(out[0]) == At(0.2) && Untag(out[1]) == At(0.12)
      && GreedyChoice(s, out, 0) && GreedyChoice(s, out, 1)
      && out[0].id != out[1].id
      && out[0].id < AssignIds(s, obs).state.nextId
      && (1 < AssignIds(s, obs).state.nextId ==> HasId(out, 1))
  {
    var r := AssignIds(s, obs);
    var out := r.tracked;
    assert Inv(s);
    assert |out| == 2 && Untag(out[0]) == At(0.2) && Untag(out[1]) == At(0.12) by {
      TwoTouchesValid();
    }
    assert GreedyChoice(s, out, 0) && GreedyChoice(s, out, 1) by {
      AssignGreedy(s, obs);
    }
    assert out[0].id != out[1].id by {
      AssignDistinct(s, obs);
    }
    assert out[0].id < r.state.nextId by {
      AssignBelowCounter(s, obs);
    }
    assert 1 < r.state.nextId ==> HasId(out, 1) by {
      AssignNoGap(s, obs);
    }
  }

  /** The ids of this frame, from those facts alone. */
  lemma NearerTouchDeduced(s: Tracker, r: Assignment)
    requires OneFinger(s, 0.1, 0.3)
    requires |r.tracked| == 2 && Untag(r.tracked[0]) == At(0.2) && Untag(r.tracked[1]) == At(0.12)
    requires GreedyChoice(s, r.tracked, 0) && GreedyChoice(s, r.tracked, 1)
    requires r.tracked[0].id != r.tracked[1].id
    requires r.tracked[0].id < r.state.nextId
    requires 1 < r.state.nextId ==> HasId(r.tracked, 1)
    ensures r.tracked == [Tracked(1, 0.2, None, []), Tracked(0, 0.12, None, [])]
  {
    var out := r.tracked;
    assert out[0].pos == 0.2 && out[1].pos == 0.12;
    SingleCandidate(s.active, s.threshold, 0.2, 0);
    SingleCandidate(s.active, s.threshold, 0.12, 0);
    SecondTakesId(s, out);
    FirstGetsFresh(s, out);
    OnlyFreshId(out, r.state.nextId);
    Pair(out, 1, 0.2, 0, 0.12);
  }

  /** Two touches, one with id 0 and one fresh from counter 1: the fresh one is 1. */
  lemma OnlyFreshId(out: seq<Tracked>, next: nat)
    requires |out| == 2 && out[1].id == 0 && 1 <= out[0].id < next
    requires 1 < next ==> HasId(out, 1)
    ensures out[0].id == 1
  {

  }

  lemma Pair(out: seq<Tracked>, id0: nat, pos0: real, id1: nat, pos1: real)
    requires |out| == 2
    requires Untag(out[0]) == At(pos0) && out[0].id == id0
    requires Untag(out[1]) == At(pos1) && out[1].id == id1
    ensures out == [Tracked(id0, pos0, None, []), Tracked(id1, pos1, None, [])]
  {
  }

  /** The nearer touch is processed first and keeps id 0. */
  lemma SecondTakesId(s: Tracker, out: seq<Tracked>)
    requires |out| == 2
    requires Candidates(s.active, s.threshold, out[0].pos) == [Cand(0.1, 0)]
    requires Candidates(s.active, s.threshold, out[1].pos) == [Cand(0.02, 0)]
    requires GreedyChoice(s, out, 1)
    ensures out[1].id == 0
  {
    assert Lt(Rank(s, out[1]), Rank(s, out[0]));
    NotClaimedBefore(s, out, 0);
    OnlyCandidate(s, out, 1, Cand(0.02, 0));
  }

  /** The farther touch finds id 0 taken and gets a fresh id. */
  lemma FirstGetsFresh(s: Tracker, out: seq<Tracked>)
    requires |out| == 2
    requires Candidates(s.active, s.threshold, out[0].pos) == [Cand(0.1, 0)]
    requires GreedyChoice(s, out, 0)
    requires out[1].id == 0 && out[0].id != out[1].id
    ensures s.nextId <= out[0].id
  {

  }

  /** A touch with a single candidate takes it, or a fresh id when it was claimed before. */
  lemma OnlyCandidate(s: Tracker, out: seq<Tracked>, k: nat, c: Cand)
    requires k < |out| && Candidates(s.active, s.threshold, out[k].pos) == [c]
    requires GreedyChoice(s, out, k)
    ensures || out[k].id == c.id
            || (out[k].id == s.nextId + |FreshBefore(s, out, k)| && ClaimedBefore(s, out, k, c.id))
  {
    var cs := Candidates(s.active, s.threshold, out[k].pos);
    assert |cs| == 1 && cs[0] == c;
  }

  /** Of two touches, the one with the strictly nearer candidate is processed first. */
  lemma NotClaimedBefore(s: Tracker, out: seq<Tracked>, id: nat)
    requires |out| == 2 && Lt(Rank(s, out[1]), Rank(s, out[0]))
    ensures !ClaimedBefore(s, out, 1, id)
  {
    hide Candidates;
    assert !Precedes(s, out, 0, 1) by {
      LtAsymmetric(Rank(s, out[1]), Rank(s, out[0]));
    }
    assert !Precedes(s, out, 1, 1);
  }

  lemma LtAsymmetric(a: Ext, b: Ext)
    requires Lt(a, b)
    ensures !Lt(b, a) && b != a
  {
  }

  /** A position at or beyond the threshold from every active finger has no candidate. */
  lemma OutOfReach(active: map<nat, real>, threshold: real, pos: real)
    requires forall j :: j in active ==> threshold <= Dist(active[j], pos)
    ensures Candidates(active, threshold, pos) == []
  {
    var cs := Candidates(active, threshold, pos);
    CandidatesSpec(active, threshold, pos);
  }

  /** Touches at 5.0, 0.1 and 0.2. */
  function ThreeTouches(): seq<Observation> {
    [At(5.0), At(0.1), At(0.2)]
  }

  lemma ThreeTouchesValid()
    ensures ValidOnly(ThreeTouches()) == ThreeTouches()
  {
  }

  /**
   Finger 0 was at 0.0 and the threshold is 1.0. The touch at 0.1 is
   processed first and keeps id 0; the touch at 0.2 finds it taken and gets
   fresh id 1; the touch at 5.0 has no candidate, is processed last and gets
   fresh id 2, although it comes first in the frame.
   */
  lemma FreshInProcessingOrder(s: Tracker)
    requires OneFinger(s, 0.0, 1.0)
    ensures AssignIds(s, ThreeTouches()).tracked
         == [Tracked(2, 5.0, None, []), Tracked(0, 0.1, None, []), Tracked(1, 0.2, None, [])]
  {
    var obs := ThreeTouches();
    var out := AssignIds(s, obs).tracked;
    assert Inv(s);
    assert |out| == 3 && Untag(out[0]) == At(5.0) && Untag(out[1]) == At(0.1) && Untag(out[2]) == At(0.2) by {
      ThreeTouchesValid();
    }
    assert forall k :: 0 <= k < |out| ==> GreedyChoice(s, out, k) by {
      AssignGreedy(s, obs);
    }
    assert out[1].id != out[2].id by {
      AssignDistinct(s, obs);
    }
    ThreeIds(s, out);
  }

  /** The ids of that frame, from the greedy choice and distinctness alone. */
  lemma ThreeIds(s: Tracker, out: seq<Tracked>)
    requires OneFinger(s, 0.0, 1.0) && |out| == 3
    requires Untag(out[0]) == At(5.0) && Untag(out[1]) == At(0.1) && Untag(out[2]) == At(0.2)
    requires forall k :: 0 <= k < |out| ==> GreedyChoice(s, out, k)
    requires out[1].id != out[2].id
    ensures out == [Tracked(2, 5.0, None, []), Tracked(0, 0.1, None, []), Tracked(1, 0.2, None, [])]
  {
    assert out[0].pos == 5.0 && out[1].pos == 0.1 && out[2].pos == 0.2;
    OutOfReach(s.active, s.threshold, 5.0);
    SingleCandidate(s.active, s.threshold, 0.1, 0);
    SingleCandidate(s.active, s.threshold, 0.2, 0);
    assert Rank(s, out[0]) == Inf && Rank(s, out[1]) == Fin(0.1) && Rank(s, out[2]) == Fin(0.2);
    NearestKeepsId(s, out);
    SecondIsFresh(s, out);
    FarthestIsFresh(s, out);
    Triple(out, 2, 5.0, 0, 0.1, 1, 0.2);
  }

  lemma Triple(out: seq<Tracked>, id0: nat, pos0: real, id1: nat, pos1: real, id2: nat, pos2: real)
    requires |out| == 3
    requires Untag(out[0]) == At(pos0) && out[0].id == id0
    requires Untag(out[1]) == At(pos1) && out[1].id == id1
    requires Untag(out[2]) == At(pos2) && out[2].id == id2
    ensures out == [Tracked(id0, pos0, None, []), Tracked(id1, pos1, None, []), Tracked(id2, pos2, None, [])]
  {
  }

  /** Nothing is processed before the touch at 0.1, so it keeps id 0. */
  lemma NearestKeepsId(s: Tracker, out: seq<Tracked>)
    requires |out| == 3
    requires Candidates(s.active, s.threshold, out[1].pos) == [Cand(0.1, 0)]
    requires Rank(s, out[0]) == Inf && Rank(s, out[1]) == Fin(0.1) && Rank(s, out[2]) == Fin(0.2)
    requires GreedyChoice(s, out, 1)
    ensures out[1].id == 0
  {
    hide Candidates;
    OnlyCandidate(s, out, 1, Cand(0.1, 0));
    assert !Precedes(s, out, 0, 1) && !Precedes(s, out, 1, 1) && !Precedes(s, out, 2, 1);
  }

  /** The touch at 0.2 finds id 0 taken; no fresh id went out before it, so it gets the counter's 1. */
  lemma SecondIsFresh(s: Tracker, out: seq<Tracked>)
    requires s.nextId == 1 && |out| == 3 && out[1].id == 0 && out[2].id != 0
    requires Candidates(s.active, s.threshold, out[2].pos) == [Cand(0.2, 0)]
    requires Rank(s, out[0]) == Inf && Rank(s, out[1]) == Fin(0.1) && Rank(s, out[2]) == Fin(0.2)
    requires GreedyChoice(s, out, 2)
    ensures out[2].id == 1
  {
    hide Candidates;
    OnlyCandidate(s, out, 2, Cand(0.2, 0));
    assert !Precedes(s, out, 0, 2) && !Precedes(s, out, 2, 2);
    hide Precedes;
    forall j | 0 <= j < |out| && Precedes(s, out, j, 2)
      ensures out[j].id < s.nextId
    {
      assert j == 1;
    }
    NoFreshBefore(s, out, 2);
  }

  lemma NoFreshBefore(s: Tracker, out: seq<Tracked>, k: nat)
    requires k < |out|
    requires forall j :: 0 <= j < |out| && Precedes(s, out, j, k) ==> out[j].id < s.nextId
    ensures FreshBefore(s, out, k) == {}
  {
  }

  /** The touch at 5.0 has no candidate and comes last; fresh id 1 went out before it, so it gets 2. */
  lemma FarthestIsFresh(s: Tracker, out: seq<Tracked>)
    requires s.nextId == 1 && |out| == 3 && out[1].id == 0 && out[2].id == 1
    requires Candidates(s.active, s.threshold, out[0].pos) == []
    requires Rank(s, out[0]) == Inf && Rank(s, out[1]) == Fin(0.1) && Rank(s, out[2]) == Fin(0.2)
    requires GreedyChoice(s, out, 0)
    ensures out[0].id == 2
  {
    hide Candidates;
    assert out[0].id == s.nextId + |FreshBefore(s, out, 0)|;
    assert Precedes(s, out, 2, 0) && !Precedes(s, out, 0, 0);
    hide Precedes;
    forall x | x in FreshBefore(s, out, 0)
      ensures x == 1
    {
      var j :| 0 <= j < |out| && Precedes(s, out, j, 0) && s.nextId <= out[j].id && out[j].id == x;
      assert j == 0 || j == 1 || j == 2;
    }
    assert 1 in FreshBefore(s, out, 0);
    assert FreshBefore(s, out, 0) == {1};
  }

  /** A strictly increasing list holding exactly two given candidates, the smaller first, is those two. */
  lemma TwoSorted(cs: seq<Cand>, c0: Cand, c1: Cand)
    requires StrictlyLex(DistKey, IdTie, cs) && LexLt(DistKey, IdTie, c0, c1)
    requires forall c :: c in cs <==> c == c0 || c == c1
    ensures cs == [c0, c1]
  {
    assert c0 in cs && c1 in cs;
    var i :| 0 <= i < |cs| && cs[i] == c0;
    var j :| 0 <= j < |cs| && cs[j] == c1;
    CandOrder(cs, i, j);
    OneOfTwo(cs, c0, c1, i, j, 0);
    OneOfTwo(cs, c0, c1, i, j, 1);
    if 2 < |cs| {
      OneOfTwo(cs, c0, c1, i, j, 2);
    }
  }

  /** Every position of such a list holds one of the two. */
  lemma OneOfTwo(cs: seq<Cand>, c0: Cand, c1: Cand, i: nat, j: nat, q: nat)
    requires StrictlyLex(DistKey, IdTie, cs)
    requires forall c :: c in cs <==> c == c0 || c == c1
    requires i < |cs| && j < |cs| && cs[i] == c0 && cs[j] == c1 && q < |cs|
    ensures q == i || q == j
  {
    assert cs[q] in cs;
    CandDistinct(cs, q, i);
    CandDistinct(cs, q, j);
  }

  lemma CandDistinct(cs: seq<Cand>, p: nat, q: nat)
    requires StrictlyLex(DistKey, IdTie, cs) && p < |cs| && q < |cs|
    ensures p != q ==> cs[p] != cs[q]
  {
    if p < q {
      assert LexLt(DistKey, IdTie, cs[p], cs[q]);
    } else if q < p {
      assert LexLt(DistKey, IdTie, cs[q], cs[p]);
    }
  }

  lemma CandOrder(cs: seq<Cand>, p: nat, q: nat)
    requires StrictlyLex(DistKey, IdTie, cs) && p < |cs| && q < |cs|
    requires LexLt(DistKey, IdTie, cs[p], cs[q])
    ensures p < q
  {
  }

  /** With two active ids, both strictly within the threshold, the candidate list holds both, nearer first. */
  lemma TwoCands(active: map<nat, real>, threshold: real, pos: real, a: nat, b: nat)
    requires forall j :: j in active <==> j == a || j == b
    requires Dist(active[a], pos) < threshold && Dist(active[b], pos) < threshold
    requires LexLt(DistKey, IdTie, Cand(Dist(active[a], pos), a), Cand(Dist(active[b], pos), b))
    ensures Candidates(active, threshold, pos) == [Cand(Dist(active[a], pos), a), Cand(Dist(active[b], pos), b)]
  {
    CandidatesSpec(active, threshold, pos);
    TwoSorted(Candidates(active, threshold, pos), Cand(Dist(active[a], pos), a), Cand(Dist(active[b], pos), b));
  }

  /**
   A touch with two candidates takes the first, or the second when the first
   was claimed before, or a fresh id when both were.
   */
  lemma BothCandidates(s: Tracker, out: seq<Tracked>, k: nat, c0: Cand, c1: Cand)
    requires k < |out| && Candidates(s.active, s.threshold, out[k].pos) == [c0, c1]
    requires GreedyChoice(s, out, k)
    ensures || out[k].id == c0.id
            || (out[k].id == c1.id && ClaimedBefore(s, out, k, c0.id))
            || (out[k].id == s.nextId + |FreshBefore(s, out, k)|
                && ClaimedBefore(s, out, k, c0.id) && ClaimedBefore(s, out, k, c1.id))
  {
    var cs := Candidates(s.active, s.threshold, out[k].pos);
    assert |cs| == 2 && cs[0] == c0 && cs[1] == c1;
  }

  /** Fingers 0 and 1 are active, at 0.0 and 1.0; the counter is at 2 and the threshold 2.0. */
  predicate TwoFingers(s: Tracker) {
    s.nextId == 2 && s.threshold == 2.0 && s.active == map[0 := 0.0, 1 := 1.0]
  }

  /** Touches at 0.1, 0.05 and 1.5. */
  function FarFrame(): seq<Observation> {
    [At(0.1), At(0.05), At(1.5)]
  }

  lemma FarFrameValid()
    ensures ValidOnly(FarFrame()) == FarFrame()
  {
  }

  /**
   Only the first match goes to the closest pair. The touch at 0.05 takes
   id 0. The touch at 0.1, whose nearest id is now taken, comes next and
   takes id 1 at distance 0.9. The touch at 1.5, only 0.5 from id 1, finds
   both ids taken and gets fresh id 2.
   */
  lemma FartherTouchTakesId(s: Tracker)
    requires TwoFingers(s)
    ensures AssignIds(s, FarFrame()).tracked
         == [Tracked(1, 0.1, None, []), Tracked(0, 0.05, None, []), Tracked(2, 1.5, None, [])]
  {
    var obs := FarFrame();
    var out := AssignIds(s, obs).tracked;
    assert Inv(s);
    assert |out| == 3 && Untag(out[0]) == At(0.1) && Untag(out[1]) == At(0.05) && Untag(out[2]) == At(1.5) by {
      FarFrameValid();
    }
    assert forall k :: 0 <= k < |out| ==> GreedyChoice(s, out, k) by {
      AssignGreedy(s, obs);
    }
    assert out[0].id != out[1].id && out[0].id != out[2].id && out[1].id != out[2].id by {
      AssignDistinct(s, obs);
    }
    FarIds(s, out);
  }

  /** The ids of that frame, from the greedy choice and distinctness alone. */
  lemma FarIds(s: Tracker, out: seq<Tracked>)
    requires TwoFingers(s) && |out| == 3
    requires Untag(out[0]) == At(0.1) && Untag(out[1]) == At(0.05) && Untag(out[2]) == At(1.5)
    requires forall k :: 0 <= k < |out| ==> GreedyChoice(s, out, k)
    requires out[0].id != out[1].id && out[0].id != out[2].id && out[1].id != out[2].id
    ensures out == [Tracked(1, 0.1, None, []), Tracked(0, 0.05, None, []), Tracked(2, 1.5, None, [])]
  {
    assert out[0].pos == 0.1 && out[1].pos == 0.05 && out[2].pos == 1.5;
    TwoCands(s.active, s.threshold, 0.1, 0, 1);
    TwoCands(s.active, s.threshold, 0.05, 0, 1);
    TwoCands(s.active, s.threshold, 1.5, 1, 0);
    assert Rank(s, out[0]) == Fin(0.1) && Rank(s, out[1]) == Fin(0.05) && Rank(s, out[2]) == Fin(0.5);
    ClosestTakesZero(s, out);
    NextTakesOne(s, out);
    FarthestGetsTwo(s, out);
    Triple(out, 1, 0.1, 0, 0.05, 2, 1.5);
  }

  /** Nothing is processed before the touch at 0.05, so it takes its nearest id 0. */
  lemma ClosestTakesZero(s: Tracker, out: seq<Tracked>)
    requires |out| == 3
    requires Candidates(s.active, s.threshold, out[1].pos) == [Cand(0.05, 0), Cand(0.95, 1)]
    requires Rank(s, out[0]) == Fin(0.1) && Rank(s, out[1]) == Fin(0.05) && Rank(s, out[2]) == Fin(0.5)
    requires GreedyChoice(s, out, 1)
    ensures out[1].id == 0
  {
    hide Candidates;
    BothCandidates(s, out, 1, Cand(0.05, 0), Cand(0.95, 1));
    assert !Precedes(s, out, 0, 1) && !Precedes(s, out, 1, 1) && !Precedes(s, out, 2, 1);
  }

  /** The touch at 0.1 comes second, finds id 0 taken and takes id 1, which nobody took before it. */
  lemma NextTakesOne(s: Tracker, out: seq<Tracked>)
    requires |out| == 3 && out[1].id == 0 && out[0].id != 0
    requires Candidates(s.active, s.threshold, out[0].pos) == [Cand(0.1, 0), Cand(0.9, 1)]
    requires Rank(s, out[0]) == Fin(0.1) && Rank(s, out[1]) == Fin(0.05) && Rank(s, out[2]) == Fin(0.5)
    requires GreedyChoice(s, out, 0)
    ensures out[0].id == 1
  {
    hide Candidates;
    BothCandidates(s, out, 0, Cand(0.1, 0), Cand(0.9, 1));
    assert !Precedes(s, out, 0, 0) && !Precedes(s, out, 2, 0);
    hide Precedes;
    forall j | 0 <= j < |out| && Precedes(s, out, j, 0)
      ensures out[j].id != 1
    {
      assert j == 1;
    }
  }

  /** The touch at 1.5 comes last, finds ids 1 and 0 taken, and gets the counter's 2. */
  lemma FarthestGetsTwo(s: Tracker, out: seq<Tracked>)
    requires s.nextId == 2 && |out| == 3 && out[0].id == 1 && out[1].id == 0
    requires out[2].id != 1 && out[2].id != 0
    requires Candidates(s.active, s.threshold, out[2].pos) == [Cand(0.5, 1), Cand(1.5, 0)]
    requires Rank(s, out[0]) == Fin(0.1) && Rank(s, out[1]) == Fin(0.05) && Rank(s, out[2]) == Fin(0.5)
    requires GreedyChoice(s, out, 2)
    ensures out[2].id == 2
  {
    hide Candidates;
    BothCandidates(s, out, 2, Cand(0.5, 1), Cand(1.5, 0));
    assert !Precedes(s, out, 2, 2);
    hide Precedes;
    forall j | 0 <= j < |out| && Precedes(s, out, j, 2)
      ensures out[j].id < s.nextId
    {
      assert j == 0 || j == 1;
    }
    NoFreshBefore(s, out, 2);
  }

  /** The first-come matcher on the same frame gives id 0 to the first touch instead. */
  lemma FirstComeKeepsIdForFirst()
    ensures AssignIdsOld(OldTracker(1, [OldEntry(0, 0.1, None)], 0.3), TwoTouches()).tracked
         == [Tracked(0, 0.2, None, []), Tracked(1, 0.12, None, [])]
  {
    var s := OldTracker(1, [OldEntry(0, 0.1, None)], 0.3);
    var out := AssignIdsOld(s, TwoTouches()).tracked;
    TwoTouchesValid();
    assert Untag(out[0]) == At(0.2) && Untag(out[1]) == At(0.12);
    AssignOldChoice(s, TwoTouches());
    assert IdSet(out[..0]) == {};
    assert FirstNearest(s.active, 0.2, {}, 0, 1);
    assert OldChoice(s, out, 0);
    assert out[0].id == 0;
    assert IdSet(out[..1]) == {0};
    assert !FirstNearest(s.active, 0.12, {0}, 0, 1);
    assert out[..1][..0] == [];
    assert CountFrom(out[..1], 1) == 0;
    assert OldChoice(s, out, 1);
    assert out[1].id == 1;
  }

  /** A touch exactly at the threshold distance does not keep the id. */
  lemma AtThresholdIsFresh()
    ensures AssignIds(Tracker(1, map[0 := 0.0], 0.25), [At(0.25)]).tracked == [Tracked(1, 0.25, None, [])]
  {

  }

  /** The same boundary in the first-come matcher. */
  lemma AtThresholdIsFreshOld()
    ensures AssignIdsOld(OldTracker(1, [OldEntry(0, 0.0, None)], 0.25), [At(0.25)]).tracked
         == [Tracked(1, 0.25, None, [])]
  {
    var s := OldTracker(1, [OldEntry(0, 0.0, None)], 0.25);
    var obs := [At(0.25)];
    var out := AssignIdsOld(s, obs).tracked;
    assert obs[..0] == [];
    assert ValidOnly(obs) == obs;
    assert Untag(out[0]) == At(0.25);
    AssignOldChoice(s, obs);
    assert IdSet(out[..0]) == {};
    assert out[..0] == [];
    assert OldChoice(s, out, 0);
  }

  /** A finger slot `(rel_pos, pressure, width)`. */
  function Slot(pos: real, pressure: real, width: real): Observation {
    Observation(Some(pos), Some(pressure), [Some(width)])
  }

  /** A frame with one valid slot gives one output carrying that slot. */
  lemma OneSlot(s: Tracker, o: Observation)
    requires Valid(o)
    ensures |AssignIds(s, [o]).tracked| == 1
    ensures AssignIds(s, [o]).tracked[0] == Tag(o, AssignIds(s, [o]).tracked[0].id)
  {
    var obs := [o];
    assert obs[..0] == [];
    assert ValidOnly(obs) == obs;
  }

  /** After a one-slot frame the active map holds only that slot's id, at its position. */
  lemma OneSlotActive(s: Tracker, o: Observation, id: nat)
    requires Inv(s) && Valid(o) && AssignIds(s, [o]).tracked == [Tag(o, id)]
    ensures id in AssignIds(s, [o]).state.active && AssignIds(s, [o]).state.active[id] == o.pos.value
    ensures forall j :: j in AssignIds(s, [o]).state.active ==> j == id
  {
    AssignActive(s, [o]);
    var out := AssignIds(s, [o]).tracked;
    forall j | j in AssignIds(s, [o]).state.active
      ensures j == id
    {
      var k :| 0 <= k < |out| && out[k].id == j;
    }
  }

  /** The first frame after `Init` takes id 0 and leaves finger 0 alone active. */
  lemma FirstFrame(threshold: real, o: Observation)
    requires Valid(o)
    ensures AssignIds(Init(threshold), [o]).tracked == [Tag(o, 0)]
    ensures OneFinger(AssignIds(Init(threshold), [o]).state, o.pos.value, threshold)
  {
    var s := Init(threshold);
    OneSlot(s, o);
    AssignFromEmpty(s, [o]);
    OneSlotActive(s, o, 0);
  }

  /** With finger 0 alone active and a slot strictly within the threshold, the slot keeps id 0. */
  lemma StaysWithin(s: Tracker, pos: real, threshold: real, o: Observation)
    requires OneFinger(s, pos, threshold) && Valid(o) && Dist(pos, o.pos.value) < threshold
    ensures AssignIds(s, [o]).tracked == [Tag(o, 0)]
    ensures OneFinger(AssignIds(s, [o]).state, o.pos.value, threshold)
  {
    var out := AssignIds(s, [o]).tracked;
    OneSlot(s, o);
    assert out[0].pos == o.pos.value;
    SingleCandidate(s.active, s.threshold, o.pos.value, 0);
    AssignGreedy(s, [o]);
    OnlyCandidate(s, out, 0, Cand(Dist(pos, o.pos.value), 0));
    assert !ClaimedBefore(s, out, 0, 0) by {
      assert !Precedes(s, out, 0, 0);
    }
    OneSlotActive(s, o, 0);
    AssignCounter(s, [o]);
    assert out[..0] == [];
  }

  /** With finger 0 alone active and a slot at the threshold or beyond, the slot gets fresh id 1. */
  lemma MovesBeyond(s: Tracker, pos: real, threshold: real, o: Observation)
    requires OneFinger(s, pos, threshold) && Valid(o) && threshold <= Dist(pos, o.pos.value)
    ensures AssignIds(s, [o]).tracked == [Tag(o, 1)]
    ensures AssignIds(s, [o]).state.nextId == 2
    ensures 1 in AssignIds(s, [o]).state.active && AssignIds(s, [o]).state.active[1] == o.pos.value
    ensures forall j :: j in AssignIds(s, [o]).state.active ==> j == 1
  {
    var out := AssignIds(s, [o]).tracked;
    OneSlot(s, o);
    assert out[0].pos == o.pos.value;
    AssignReuse(s, [o]);
    assert out[0].id !in s.active;
    AssignBelowCounter(s, [o]);
    AssignNoGap(s, [o]);
    AssignCounter(s, [o]);
    assert HasId(out, 1) || AssignIds(s, [o]).state.nextId <= 1;
    OneSlotActive(s, o, 1);
  }

  /**
   Three frames from a new tracker: a touch at 0.0 takes id 0; moved to 0.05,
   within the threshold, it keeps id 0; jumped to 2.0, beyond it, it gets
   the fresh id 1. Any threshold between the two distances will do, and
   `DefaultThreshold` lies there.
   */
  lemma ThreeFrames(threshold: real)
    requires 0.05 < threshold <= 1.95
    ensures var r1 := AssignIds(Init(threshold), [Slot(0.0, 10.0, 1.0)]);
      var r2 := AssignIds(r1.state, [Slot(0.05, 12.0, 1.0)]);
      var r3 := AssignIds(r2.state, [Slot(2.0, 5.0, 1.0)]);
      && r1.tracked == [Tracked(0, 0.0, Some(10.0), [Some(1.0)])]
      && r1.state.active == map[0 := 0.0]
      && r2.tracked == [Tracked(0, 0.05, Some(12.0), [Some(1.0)])]
      && r3.tracked == [Tracked(1, 2.0, Some(5.0), [Some(1.0)])]
  {
    var r1 := AssignIds(Init(threshold), [Slot(0.0, 10.0, 1.0)]);
    FirstFrame(threshold, Slot(0.0, 10.0, 1.0));
    assert r1.state.active == map[0 := 0.0];
    var r2 := AssignIds(r1.state, [Slot(0.05, 12.0, 1.0)]);
    StaysWithin(r1.state, 0.0, threshold, Slot(0.05, 12.0, 1.0));
    MovesBeyond(r2.state, 0.05, threshold, Slot(2.0, 5.0, 1.0));
  }

  /** The same three frames on `TouchTracker()`, made with the default threshold. */
  lemma ThreeFramesDefault()
    ensures var r1 := AssignIds(Init(), [Slot(0.0, 10.0, 1.0)]);
      var r2 := AssignIds(r1.state, [Slot(0.05, 12.0, 1.0)]);
      var r3 := AssignIds(r2.state, [Slot(2.0, 5.0, 1.0)]);
      && r1.tracked == [Tracked(0, 0.0, Some(10.0), [Some(1.0)])]
      && r2.tracked == [Tracked(0, 0.05, Some(12.0), [Some(1.0)])]
      && r3.tracked == [Tracked(1, 2.0, Some(5.0), [Some(1.0)])]
  {
    ThreeFrames(DefaultThreshold);
  }

}
