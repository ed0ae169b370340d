/**
 The candidate list of one new touch: the active ids strictly closer than
 the threshold, as `(dist, old_id)` pairs sorted by distance and then by id.
 */
module CandidateList {
  import opened StableSort
  import opened Touch

  /** One entry `(dist, old_id)` of a candidate list. */
  datatype Cand = Cand(dist: real, id: nat)

  function DistKey(c: Cand): Ext {
    Fin(c.dist)
  }

  function IdTie(c: Cand): int {
    c.id
  }

  lemma {:induction false} MinExists(s: set<nat>)
    requires s != {}
    ensures exists m :: m in s && forall x :: x in s ==> m <= x
  {
    var y :| y in s;
    var smaller := set x | x in s && x < y;
    assert forall x :: x in s ==> (x in smaller <==> x < y);
    if smaller == {} {
      assert forall x :: x in s ==> y <= x;
    } else {
      assert y !in smaller;
      MinExists(smaller);
      var m :| m in smaller && forall x :: x in smaller ==> m <= x;
      assert forall x :: x in s ==> m <= x;
    }
  }

  /** The least element of a non-empty set of ids. */
  function MinOf(s: set<nat>): (m: nat)
    requires s != {}
    ensures m in s && forall x :: x in s ==> m <= x
  {
    MinExists(s);
    var m :| m in s && forall x :: x in s ==> m <= x;
    m
  }

  /** The elements of a finite set of ids in increasing order. */
  function SortedIds(s: set<nat>): (r: seq<nat>)
    decreases |s|
  {
    if s == {} then [] else [MinOf(s)] + SortedIds(s - {MinOf(s)})
  }

  lemma {:induction false} SortedIdsSpec(s: set<nat>)
    decreases |s|
    ensures forall x :: x in SortedIds(s) <==> x in s
    ensures forall p, q :: 0 <= p < q < |SortedIds(s)| ==> SortedIds(s)[p] < SortedIds(s)[q]
  {
    if s != {} {
      var m := MinOf(s);
      var rest := SortedIds(s - {m});
      SortedIdsSpec(s - {m});
      assert SortedIds(s) == [m] + rest;
      assert forall q :: 0 <= q < |rest| ==> m < rest[q] by {
        forall q | 0 <= q < |rest| ensures m < rest[q] {
          assert rest[q] in rest;
        }
      }
    }
  }

  /** The active ids whose last position is strictly closer than `threshold` to `pos`. */
  function Near(active: map<nat, real>, threshold: real, pos: real): (ids: set<nat>)
    ensures forall id :: id in ids <==> id in active && Dist(active[id], pos) < threshold
  {
    set id | id in active && Dist(active[id], pos) < threshold
  }

  function ToCands(ids: seq<nat>, active: map<nat, real>, pos: real): (cs: seq<Cand>)
    requires forall k :: 0 <= k < |ids| ==> ids[k] in active
  {
    seq(|ids|, k requires 0 <= k < |ids| => Cand(Dist(active[ids[k]], pos), ids[k]))
  }

  lemma CandsMembers(ids: seq<nat>, active: map<nat, real>, threshold: real, pos: real, cs: seq<Cand>)
    requires forall k :: 0 <= k < |ids| ==> ids[k] in Near(active, threshold, pos)
    requires forall id :: id in Near(active, threshold, pos) ==> id in ids
    requires multiset(cs) == multiset(ToCands(ids, active, pos))
    ensures forall c :: c in cs <==> c.id in active && c.dist == Dist(active[c.id], pos) && c.dist < threshold
  {
    var unsorted := ToCands(ids, active, pos);
    forall c
      ensures c in cs <==> c in unsorted
    {
      assert c in cs <==> c in multiset(cs);
      assert c in unsorted <==> c in multiset(unsorted);
    }
    forall c: Cand | c.id in active && c.dist == Dist(active[c.id], pos) && c.dist < threshold
      ensures c in unsorted
    {
      var k :| 0 <= k < |ids| && ids[k] == c.id;
      assert unsorted[k] == c;
    }
  }

  /** `sorted_old` for a new touch at `pos`. */
  function Candidates(active: map<nat, real>, threshold: real, pos: real): (cs: seq<Cand>)
  {
    SortedIdsSpec(Near(active, threshold, pos));
    Sort(DistKey, ToCands(SortedIds(Near(active, threshold, pos)), active, pos))
  }

  /**
   The candidate list holds exactly the pairs (distance, id) of the active
   ids strictly within `threshold`, in strictly increasing (distance, id)
   order, which is how Python's tuple sort leaves `sorted_old`.
   */
  lemma CandidatesSpec(active: map<nat, real>, threshold: real, pos: real)
    ensures forall c :: c in Candidates(active, threshold, pos) <==>
      c.id in active && c.dist == Dist(active[c.id], pos) && c.dist < threshold
    ensures StrictlyLex(DistKey, IdTie, Candidates(active, threshold, pos))
  {
    var ids := SortedIds(Near(active, threshold, pos));
    SortedIdsSpec(Near(active, threshold, pos));
    var unsorted := ToCands(ids, active, pos);
    assert IncreasingBy(IdTie, unsorted);
    SortLex(DistKey, IdTie, unsorted);
    SortPerm(DistKey, unsorted);
    CandsMembers(ids, active, threshold, pos, Sort(DistKey, unsorted));
  }

  /** With no active ids there are no candidates. */
  lemma NoCandidates(threshold: real, pos: real)
    ensures Candidates(map[], threshold, pos) == []
  {

  }

}
