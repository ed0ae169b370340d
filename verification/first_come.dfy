/**
 `TouchTracker.assign_ids_old`: the earlier first-come matching. Touches
 are handled in input order; each takes the nearest active id not yet
 used in this frame, if that one is strictly within the threshold, and a
 fresh id otherwise. Its active map is a dict from id to
 `(rel_pos, pressure)` whose iteration order (insertion order) decides
 ties, so it is kept here as a list of entries.
 */
module FirstCome {
  import opened Options
  import opened StableSort
  import opened Touch

  /** An entry `old_id: (old_pos, pressure)` of the old active dict. */
  datatype OldEntry = OldEntry(id: nat, pos: real, pressure: Option<real>)

  /** The tracker state as this variant reads and writes it. */
  datatype OldTracker = OldTracker(nextId: nat, active: seq<OldEntry>, threshold: real)

  datatype OldAssignment = OldAssignment(tracked: seq<Tracked>, state: OldTracker)

  /** The entries have distinct ids, as dict keys do. */
  predicate DistinctEntries(es: seq<OldEntry>) {
    forall i, j :: 0 <= i < j < |es| ==> es[i].id != es[j].id
  }

  /** A dict with ids from the counter only. */
  predicate OldInv(s: OldTracker) {
    && DistinctEntries(s.active)
    && forall i :: 0 <= i < |s.active| ==> s.active[i].id < s.nextId
  }

  function OldInit(threshold: real := DefaultThreshold): (s: OldTracker)
    ensures OldInv(s)
    ensures s.nextId == 0 && s.active == [] && s.threshold == threshold
  {
    OldTracker(0, [], threshold)
  }

  function OldClear(s: OldTracker): (s': OldTracker)
    ensures s'.active == []
    ensures s'.nextId == s.nextId && s'.threshold == s.threshold
    ensures OldInv(s')
  {
    s.(active := [])
  }

  /**
   Among the first `k` entries, entry `i` is unused and nearest to `pos` of
   all the unused ones, and strictly nearer than every unused entry listed
   before it.
   */
  predicate FirstNearest(es: seq<OldEntry>, pos: real, used: set<nat>, i: nat, k: nat)
    requires k <= |es|
  {
    && i < k && es[i].id !in used
    && (forall j :: 0 <= j < i && es[j].id !in used ==> Dist(es[i].pos, pos) < Dist(es[j].pos, pos))
    && (forall j :: i < j < k && es[j].id !in used ==> Dist(es[i].pos, pos) <= Dist(es[j].pos, pos))
  }

  /**
   The search loop from entry `k` on, holding the best entry so far and
   `best_dist`: an entry replaces the best one only when strictly nearer
   and not yet used.
   */
  function Scan(es: seq<OldEntry>, pos: real, used: set<nat>, k: nat, best: Option<nat>, bestDist: Ext): (r: Option<nat>)
    requires k <= |es|
    requires best.Some? ==> best.value < |es|
    ensures r.Some? ==> r.value < |es|
    decreases |es| - k
  {
    if k == |es| then best
    else
      var d := Dist(es[k].pos, pos);
      if Lt(Fin(d), bestDist) && es[k].id !in used then Scan(es, pos, used, k + 1, Some(k), Fin(d))
      else Scan(es, pos, used, k + 1, best, bestDist)
  }

  /** The position in the dict of `best_id`, or `None`. */
  function BestEntry(es: seq<OldEntry>, pos: real, used: set<nat>): (r: Option<nat>)
    ensures r.Some? ==> r.value < |es|
  {
    Scan(es, pos, used, 0, None, Inf)
  }

  lemma {:induction false} ScanFinds(es: seq<OldEntry>, pos: real, used: set<nat>, k: nat, best: Option<nat>, bestDist: Ext)
    requires k <= |es|
    requires best.None? ==> bestDist == Inf && forall j :: 0 <= j < k ==> es[j].id in used
    requires best.Some? ==> FirstNearest(es, pos, used, best.value, k) && bestDist == Fin(Dist(es[best.value].pos, pos))
    ensures Scan(es, pos, used, k, best, bestDist).None? ==> forall j :: 0 <= j < |es| ==> es[j].id in used
    ensures Scan(es, pos, used, k, best, bestDist).Some? ==>
      FirstNearest(es, pos, used, Scan(es, pos, used, k, best, bestDist).value, |es|)
    decreases |es| - k
  {
    if k < |es| {
      var d := Dist(es[k].pos, pos);
      if Lt(Fin(d), bestDist) && es[k].id !in used {
        ScanFinds(es, pos, used, k + 1, Some(k), Fin(d));
      } else {
        ScanFinds(es, pos, used, k + 1, best, bestDist);
      }
    }
  }

  /**
   The search finds no entry exactly when every entry is used, and
   otherwise the unused entry nearest to `pos`, the first listed on a tie.
   */
  lemma BestEntrySpec(es: seq<OldEntry>, pos: real, used: set<nat>)
    ensures BestEntry(es, pos, used).None? <==> forall j :: 0 <= j < |es| ==> es[j].id in used
    ensures BestEntry(es, pos, used).Some? ==> FirstNearest(es, pos, used, BestEntry(es, pos, used).value, |es|)
  {
    ScanFinds(es, pos, used, 0, None, Inf);
  }

  /** There is only one first-nearest entry. */
  lemma FirstNearestUnique(es: seq<OldEntry>, pos: real, used: set<nat>, i: nat, i': nat)
    requires FirstNearest(es, pos, used, i, |es|) && FirstNearest(es, pos, used, i', |es|)
    ensures i == i'
  {
  }

  /** `used_old_ids`: every id appended to `matched` so far. */
  function IdSet(ts: seq<Tracked>): set<nat> {
    set k | 0 <= k < |ts| :: ts[k].id
  }

  /**
   The loop over the valid touches: returns `matched` and the counter. The
   set `used_old_ids` is the set of ids in `matched` so far, since each
   branch adds exactly the id it appends.
   */
  function OldRun(s: OldTracker, vs: seq<Observation>): (r: (seq<Tracked>, nat))
    requires forall k :: 0 <= k < |vs| ==> Valid(vs[k])
    ensures |r.0| == |vs|
    ensures forall k :: 0 <= k < |vs| ==> Untag(r.0[k]) == vs[k]
    ensures s.nextId <= r.1
  {
    if |vs| == 0 then ([], s.nextId)
    else
      var prev := OldRun(s, vs[..|vs| - 1]);
      var o := vs[|vs| - 1];
      assert Valid(o);
      var b := BestEntry(s.active, o.pos.value, IdSet(prev.0));
      if b.Some? && Dist(s.active[b.value].pos, o.pos.value) < s.threshold then
        (prev.0 + [Tag(o, s.active[b.value].id)], prev.1)
      else
        (prev.0 + [Tag(o, prev.1)], prev.1 + 1)
  }

  /** Puts `e` in the dict: in place when its id is present, at the end otherwise. */
  function Upsert(es: seq<OldEntry>, e: OldEntry): (r: seq<OldEntry>)
  {
    if |es| == 0 then [e]
    else if es[0].id == e.id then [e] + es[1..]
    else [es[0]] + Upsert(es[1..], e)
  }

  /** `{tid: (pos, pr) for tid, pos, pr, *rest in matched}`. */
  function ToOldActive(ts: seq<Tracked>): seq<OldEntry> {
    if |ts| == 0 then []
    else
      var t := ts[|ts| - 1];
      Upsert(ToOldActive(ts[..|ts| - 1]), OldEntry(t.id, t.pos, t.pressure))
  }

  /** `assign_ids_old`. */
  function AssignIdsOld(s: OldTracker, obs: seq<Observation>): (r: OldAssignment)
    ensures |r.tracked| == |ValidOnly(obs)|
    ensures forall k :: 0 <= k < |r.tracked| ==> Untag(r.tracked[k]) == ValidOnly(obs)[k]
    ensures r.state.threshold == s.threshold
    ensures s.nextId <= r.state.nextId
  {
    var run := OldRun(s, ValidOnly(obs));
    OldAssignment(run.0, OldTracker(run.1, ToOldActive(run.0), s.threshold))
  }

  /**
   Touch `k` took the first-nearest entry not used by the touches before it
   when that entry is strictly within the threshold, and otherwise the
   next fresh id: the counter plus the number of fresh ids handed out
   before it.
   */
  predicate OldChoice(s: OldTracker, out: seq<Tracked>, k: nat)
    requires k < |out|
  {
    var used := IdSet(out[..k]);
    var pos := out[k].pos;
    || (exists i :: 0 <= i < |s.active| && FirstNearest(s.active, pos, used, i, |s.active|)
                    && Dist(s.active[i].pos, pos) < s.threshold && out[k].id == s.active[i].id)
    || (&& (forall i :: 0 <= i < |s.active| && FirstNearest(s.active, pos, used, i, |s.active|) ==> s.threshold <= Dist(s.active[i].pos, pos))
        && out[k].id == s.nextId + CountFrom(out[..k], s.nextId))
  }

  /** The search's verdict for touch `k`, read as the first-come choice. */
  lemma ChoiceFromSearch(s: OldTracker, out: seq<Tracked>, k: nat, b: Option<nat>)
    requires k < |out|
    requires b == BestEntry(s.active, out[k].pos, IdSet(out[..k]))
    requires b.Some? && Dist(s.active[b.value].pos, out[k].pos) < s.threshold ==> out[k].id == s.active[b.value].id
    requires !(b.Some? && Dist(s.active[b.value].pos, out[k].pos) < s.threshold) ==>
      out[k].id == s.nextId + CountFrom(out[..k], s.nextId)
    ensures OldChoice(s, out, k)
  {
    var pos := out[k].pos;
    var used := IdSet(out[..k]);
    BestEntrySpec(s.active, pos, used);
    forall i | 0 <= i < |s.active| && FirstNearest(s.active, pos, used, i, |s.active|)
      ensures b == Some(i)
    {
      FirstNearestUnique(s.active, pos, used, i, b.value);
    }
  }

  /** The new touch's step is the first-come choice, and the counter counts the fresh ids. */
  lemma LastChoice(s: OldTracker, vs: seq<Observation>)
    requires OldInv(s) && |vs| > 0
    requires forall k :: 0 <= k < |vs| ==> Valid(vs[k])
    requires OldRun(s, vs[..|vs| - 1]).1 == s.nextId + CountFrom(OldRun(s, vs[..|vs| - 1]).0, s.nextId)
    ensures OldChoice(s, OldRun(s, vs).0, |vs| - 1)
    ensures OldRun(s, vs).1 == s.nextId + CountFrom(OldRun(s, vs).0, s.nextId)
    ensures OldRun(s, vs).0[..|vs| - 1] == OldRun(s, vs[..|vs| - 1]).0
  {
    hide OldChoice, BestEntry;
    var prev := OldRun(s, vs[..|vs| - 1]);
    var out := OldRun(s, vs).0;
    var n := |vs| - 1;
    var pos := vs[n].pos.value;
    var b := BestEntry(s.active, pos, IdSet(prev.0));
    assert out[..n] == prev.0;
    assert out[n].pos == pos by {
      assert Untag(out[n]) == vs[n];
    }
    ChoiceFromSearch(s, out, n, b);
    assert CountFrom(out, s.nextId) == CountFrom(prev.0, s.nextId) + (if out[n].id >= s.nextId then 1 else 0) by {
      assert out[..|out| - 1] == prev.0;
    }
  }

  /** Every touch got the first-come choice. */
  lemma {:induction false} OldRunChoice(s: OldTracker, vs: seq<Observation>)
    requires OldInv(s)
    requires forall k :: 0 <= k < |vs| ==> Valid(vs[k])
    ensures forall k :: 0 <= k < |vs| ==> OldChoice(s, OldRun(s, vs).0, k)
    ensures OldRun(s, vs).1 == s.nextId + CountFrom(OldRun(s, vs).0, s.nextId)
  {
    if |vs| > 0 {
      hide OldRun, OldChoice;
      var n := |vs| - 1;
      var front := vs[..n];
      OldRunChoice(s, front);
      LastChoice(s, vs);
      var prev := OldRun(s, front).0;
      var out := OldRun(s, vs).0;
      forall k | 0 <= k < n
        ensures OldChoice(s, out, k)
      {
        ChoiceExtends(s, prev, out, k);
      }
    }
  }

  /** A touch's first-come choice depends only on the touches up to it. */
  lemma ChoiceExtends(s: OldTracker, prev: seq<Tracked>, out: seq<Tracked>, k: nat)
    requires k < |prev| <= |out| && out[..|prev|] == prev
    requires OldChoice(s, prev, k)
    ensures OldChoice(s, out, k)
  {
    assert out[..k] == prev[..k];
    assert out[k] == prev[k];
  }

  /** The ids are pairwise distinct and below the counter. */
  lemma {:induction false} OldRunDistinct(s: OldTracker, vs: seq<Observation>)
    requires OldInv(s)
    requires forall k :: 0 <= k < |vs| ==> Valid(vs[k])
    ensures forall k :: 0 <= k < |vs| ==> OldRun(s, vs).0[k].id < OldRun(s, vs).1
    ensures forall j, k :: 0 <= j < k < |vs| ==> OldRun(s, vs).0[j].id != OldRun(s, vs).0[k].id
  {
    if |vs| > 0 {
      var n := |vs| - 1;
      var prev := OldRun(s, vs[..n]);
      OldRunDistinct(s, vs[..n]);
      var out := OldRun(s, vs).0;
      var o := vs[n];
      var used := IdSet(prev.0);
      var b := BestEntry(s.active, o.pos.value, used);
      BestEntrySpec(s.active, o.pos.value, used);
      assert forall k :: 0 <= k < n ==> out[k] == prev.0[k];
      assert forall k :: 0 <= k < n ==> prev.0[k].id in used;
    }
  }

  /** With fresh ids in its entries, putting an entry appends it. */
  lemma {:induction false} UpsertNew(es: seq<OldEntry>, e: OldEntry)
    requires forall i :: 0 <= i < |es| ==> es[i].id != e.id
    ensures Upsert(es, e) == es + [e]
  {
    if |es| > 0 {
      UpsertNew(es[1..], e);
      assert es == [es[0]] + es[1..];
    }
  }

  /** With distinct ids the new dict lists the touches in order, with position and pressure. */
  lemma {:induction false} ToOldActiveDistinct(ts: seq<Tracked>)
    requires forall j, k :: 0 <= j < k < |ts| ==> ts[j].id != ts[k].id
    ensures |ToOldActive(ts)| == |ts|
    ensures forall k :: 0 <= k < |ts| ==> ToOldActive(ts)[k] == OldEntry(ts[k].id, ts[k].pos, ts[k].pressure)
  {
    if |ts| > 0 {
      var front := ts[..|ts| - 1];
      var t := ts[|ts| - 1];
      ToOldActiveDistinct(front);
      UpsertNew(ToOldActive(front), OldEntry(t.id, t.pos, t.pressure));
    }
  }

  /** Every touch of the frame got the first-come choice, and the counter moved by the fresh ids. */
  lemma AssignOldChoice(s: OldTracker, obs: seq<Observation>)
    requires OldInv(s)
    ensures forall k :: 0 <= k < |AssignIdsOld(s, obs).tracked| ==> OldChoice(s, AssignIdsOld(s, obs).tracked, k)
    ensures AssignIdsOld(s, obs).state.nextId == s.nextId + CountFrom(AssignIdsOld(s, obs).tracked, s.nextId)
  {
    OldRunChoice(s, ValidOnly(obs));
  }

  /**
   The ids of a frame are distinct, and the new dict holds exactly the
   frame's touches in input order; the invariant is preserved.
   */
  lemma AssignOldActive(s: OldTracker, obs: seq<Observation>)
    requires OldInv(s)
    ensures forall j, k :: 0 <= j < k < |AssignIdsOld(s, obs).tracked| ==>
      AssignIdsOld(s, obs).tracked[j].id != AssignIdsOld(s, obs).tracked[k].id
    ensures |AssignIdsOld(s, obs).state.active| == |AssignIdsOld(s, obs).tracked|
    ensures forall k :: 0 <= k < |AssignIdsOld(s, obs).tracked| ==>
      var t := AssignIdsOld(s, obs).tracked[k];
      AssignIdsOld(s, obs).state.active[k] == OldEntry(t.id, t.pos, t.pressure)
    ensures OldInv(AssignIdsOld(s, obs).state)
  {
    OldRunDistinct(s, ValidOnly(obs));
    ToOldActiveDistinct(AssignIdsOld(s, obs).tracked);
  }

}
