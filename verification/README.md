# Touch tracker: stable finger ids across frames

A model of `TouchTracker` from `order_fingers.py`. Each frame of a touch
sensor gives a handful of anonymous finger slots `(rel_pos, pressure, *rest)`.
The tracker tags every slot with a defined position with an integer id, so
that a finger keeps its id from one frame to the next. Its state is a
counter `next_touch_id`, the map `active_touches` from id to last position,
and `match_threshold`.

The shipped matcher `assign_ids` works in four steps:

1. Each valid touch gets its candidate list: the active ids strictly
   closer than the threshold, sorted by (distance, id).
2. The touches are ordered by their nearest candidate distance. Touches
   with no candidate go last. The sort is stable.
3. In that order, each touch claims its first unclaimed candidate, or a
   fresh id from the counter.
4. The active map becomes this frame's id to position map.

The earlier first-come matcher `assign_ids_old` is modelled next to it, for
contrast.

Files:

- `options.dfy`: `Option`.
- `touch.dfy` (module `Touch`): observations, tracked touches, the tracker state, `Init`, `Clear`, the filter of valid slots, the output dict, counting of fresh ids.
- `stable_sort.dfy` (module `StableSort`): keys that are reals or +infinity, a stable insertion sort, and its sortedness, stability and uniqueness.
- `candidates.dfy` (module `CandidateList`): the candidate list `sorted_old` of one touch.
- `assign.dfy` (module `Assign`):
  - `new_to_old`;
  - the claiming loop;
  - `Run`, the part of `assign_ids` after `new_to_old` is built;
  - `AssignIds`.
- `run_facts.dfy` (module `RunFacts`): what `Run` guarantees, for any well-formed request list.
- `assign_theorems.dfy` (module `AssignTheorems`): the guarantees of `assign_ids`, stated on a tracker state and a frame.
- `first_come.dfy` (module `FirstCome`): `assign_ids_old`, with its own state shape.
- `scenarios.dfy` (module `Scenarios`): worked frames derived from the general theorems.

Positions are `real`. A slot whose position is `None` or NaN is `None`.
Python's `list.sort` is stable, and so is `StableSort.Sort`; `LexUnique`
shows that every stable sort gives the same list, so the sorting algorithm
chosen makes no difference. The threshold is a parameter of `Init`. Its
default, `Touch.DefaultThreshold`, is the exact value of the double
`math.pi / 8`.

`Touch.Inv` says every active id is below the counter. `Init` and `Clear`
establish it, and `assign_ids` preserves it (`AssignTheorems.AssignKeepsInv`).
The first-come matcher preserves the analogous `FirstCome.OldInv`, which
also asks for distinct entries (`FirstCome.AssignOldActive`). The theorems
about `assign_ids` assume `Inv`, since the states the class can reach all
satisfy it.

The docstring of `assign_ids` (order_fingers.py:56) says the old touch
closest to any new touch is matched first and removed from the pool. That
holds only for the first match. Each touch is ranked once, by its own
nearest candidate (order_fingers.py:72), and keeps that rank when its
nearest id is taken. So it can take a farther id ahead of a touch that is
nearer to that id. `Scenarios.FartherTouchTakesId` is such a frame. The
model follows the code.

## Model

| member | source | states |
|---|---|---|
| Touch.Init | order_fingers.py:4-12 | a new tracker has counter 0, no active touches, the given threshold (by default `DefaultThreshold`, the exact value of the double `math.pi / 8`), and satisfies the invariant |
| Touch.Clear | order_fingers.py:15-16 | `clear` empties the active map and keeps the counter and the threshold |
| Touch.Dist | order_fingers.py:65 | the distance is non-negative and is one of the two differences (no wrap-around) |
| Touch.Tag | order_fingers.py:80 | the output tuple carries the id in front of exactly the input slot's position, pressure and trailing fields |
| Touch.ValidIndicesSpec | order_fingers.py:58-62 | the k-th kept observation is the one at the k-th valid input position, and those positions strictly increase (input order) |
| Touch.ValidIndicesComplete | order_fingers.py:60-62 | every input slot with a defined position is kept |
| Touch.ToActiveKeys | order_fingers.py:91 | the keys of `{tid: pos for ...}` are exactly the ids of the matched touches |
| Touch.ToActiveDistinct | order_fingers.py:91 | with distinct ids the dict maps each id to its touch's position and has one entry per touch |
| Touch.CountFromRange | order_fingers.py:84-85 | distinct ids below `hi` that cover every value from `next` to `hi` hold exactly `hi - next` ids from `next` on |
| StableSort.SortSorted | order_fingers.py:72 | the sorted list is ordered by key |
| StableSort.SortPerm | order_fingers.py:72 | the sorted list is a permutation of the input |
| StableSort.SortLex | order_fingers.py:72 | on input increasing in a tie-break, the sorted list is strictly increasing in (key, tie-break): equal keys keep input order |
| StableSort.LexUnique | order_fingers.py:68 | two lists with the same elements, both strictly increasing in (key, tie-break), are equal |
| StableSort.SortEqualKeys | order_fingers.py:72 | a list whose keys are all equal (all `inf`, say) is left unchanged |
| CandidateList.CandidatesSpec | order_fingers.py:63-68 | `sorted_old` holds exactly the (distance, id) pairs of the active ids strictly within the threshold, strictly increasing in (distance, id) |
| CandidateList.NoCandidates | order_fingers.py:63-67 | with no active touches every candidate list is empty |
| Assign.Requests | order_fingers.py:58-69 | `new_to_old` has one entry per valid observation, in input order, naming that observation and carrying its candidate list |
| Assign.FirstFree | order_fingers.py:78-82 | the scan of `sorted_old` stops at the first id not in `used_old_ids`; every earlier id is used |
| Assign.ClaimGreedy | order_fingers.py:74-87 | at every step of the loop the touch gets its first candidate not claimed by an earlier step; when all are claimed it gets the counter's current value, the start plus the number of fresh ids handed out at earlier steps, which is below the final counter |
| Assign.ClaimDistinct | order_fingers.py:78-87 | the loop hands out pairwise distinct ids, all below the final counter, and every counter value it consumes is handed out |
| Assign.ClaimAllFresh | order_fingers.py:83-87 | without candidates the loop hands out `next`, `next + 1`, ... in order and advances the counter by the number of touches |
| Assign.LabelMapDistinct | order_fingers.py:80 | with distinct indices, `matched[new_index]` is the id the loop gave that touch |
| Assign.LabelsCover | order_fingers.py:90 | every valid position of `matched` is filled, so the filter on line 90 drops only invalid slots |
| Assign.Run | order_fingers.py:68-93 | one output per request, each the request's observation with an id, the threshold kept and the counter not decreased |
| Assign.AssignIds | order_fingers.py:52-93 | one output per valid observation, in input order, each that observation with an id added; the threshold is kept and the counter does not decrease |
| RunFacts.SortedRequests | order_fingers.py:72 | the processing order is strictly increasing in (nearest distance, input index) |
| RunFacts.RunDistinct | order_fingers.py:73-87 | the outputs of the loop carry pairwise distinct ids |
| RunFacts.RunReuse | order_fingers.py:78-82 | an output id below the starting counter is one of that output's own candidates |
| RunFacts.RunGreedy | order_fingers.py:72-87 | every output's id is its first candidate not taken by a request processed before it; when all are taken it is the starting counter plus the number of fresh ids received by requests processed before it |
| RunFacts.RunAllFresh | order_fingers.py:83-87 | with no candidates at all the outputs get consecutive counter values in input order |
| AssignTheorems.AssignDistinct | order_fingers.py:73-87 | no two touches of a frame share an id |
| AssignTheorems.AssignReuse | order_fingers.py:64-67 | a touch keeps an active id exactly when its id is below the counter, and then that id's last position is strictly within the threshold |
| AssignTheorems.AssignBelowCounter | order_fingers.py:84-85 | every id of the frame is below the new counter |
| AssignTheorems.AssignNoGap | order_fingers.py:84-85 | every counter value consumed by the frame is the id of one of its touches |
| AssignTheorems.AssignCounter | order_fingers.py:83-87 | the counter advances by exactly the number of fresh ids in the output |
| AssignTheorems.AssignActive | order_fingers.py:89-91 | the new active map's keys are exactly the frame's ids, each mapped to its touch's position, with one entry per touch |
| AssignTheorems.AssignKeepsInv | order_fingers.py:84-91 | every key of the new active map is below the new counter |
| AssignTheorems.AssignGreedy | order_fingers.py:68-87 | every touch got the first of its candidates not claimed by a touch that precedes it (strictly nearer nearest candidate, or equally near and earlier in the input); when all were claimed it got the counter plus the number of fresh ids given to the touches that precede it |
| AssignTheorems.AssignFromEmpty | order_fingers.py:63-67 | with no active touches the k-th valid touch gets id `next + k` and the counter advances by the number of valid touches |
| AssignTheorems.ClearThenFresh | order_fingers.py:15-16 | right after `clear` the frame's touches get the counter's next values in input order |
| FirstCome.OldInit | order_fingers.py:4-12 | a new tracker in the shape the first-come matcher reads has counter 0 and an empty dict |
| FirstCome.OldClear | order_fingers.py:15-16 | `clear` empties the dict and keeps counter and threshold |
| FirstCome.BestEntrySpec | order_fingers.py:25-34 | the search finds nothing exactly when every dict entry is used, and otherwise the unused entry nearest to the touch, the first in dict order on a tie |
| FirstCome.OldRun | order_fingers.py:22-46 | one output per valid observation, carrying that observation; the counter does not decrease |
| FirstCome.AssignIdsOld | order_fingers.py:18-50 | one output per valid observation, in input order, each that observation with an id; threshold kept, counter not decreased |
| FirstCome.AssignOldChoice | order_fingers.py:22-46 | each touch, in input order, took the nearest entry not used earlier in the frame when strictly within the threshold, and otherwise the counter plus the number of fresh ids before it; the counter advances by the number of fresh ids |
| FirstCome.AssignOldActive | order_fingers.py:49 | ids are distinct, the new dict lists the frame's touches in input order with position and pressure, and the invariant holds |
| FirstCome.ToOldActiveDistinct | order_fingers.py:49 | with distinct ids the dict comprehension keeps one entry per touch, in order |
| Scenarios.NearerTouchKeepsId | order_fingers.py:52-93 | one finger at 0.1, threshold 0.3, touches at 0.2 and 0.12: the nearer second touch keeps id 0 and the first gets fresh id 1 |
| Scenarios.FreshInProcessingOrder | order_fingers.py:68-87 | one finger at 0.0, threshold 1.0, touches at 5.0, 0.1 and 0.2: they get ids 2, 0 and 1, since the touch without a candidate is processed last and fresh ids follow the processing order |
| Scenarios.FartherTouchTakesId | order_fingers.py:56-87 | fingers 0 and 1 at 0.0 and 1.0, counter 2, threshold 2.0, touches at 0.1, 0.05 and 1.5: the ids are 1, 0 and 2, so the touch at 0.1 takes id 1 at distance 0.9 while the touch at 1.5, 0.5 from it, gets a fresh id; closest-pair-first holds only for the first match |
| Scenarios.FirstComeKeepsIdForFirst | order_fingers.py:18-50 | on the same frame the first-come matcher gives id 0 to the first touch and 1 to the second |
| Scenarios.FirstFrame | order_fingers.py:4-12 | on a new tracker a one-slot frame takes id 0 and leaves only id 0 active, at the slot's position, with counter 1 |
| Scenarios.StaysWithin | order_fingers.py:64-82 | with id 0 alone active, a slot strictly within the threshold keeps id 0 and the counter stays at 1 |
| Scenarios.MovesBeyond | order_fingers.py:83-91 | with id 0 alone active, a slot at or beyond the threshold gets fresh id 1, the counter moves to 2 and id 0 is dropped |
| Scenarios.ThreeFrames | order_fingers.py:52-93 | a touch at 0.0, then 0.05, then 2.0 gets ids 0, 0, 1 for any threshold strictly above 0.05 and at most 1.95, and the state after the first frame is `{0: 0.0}` |
| Scenarios.ThreeFramesDefault | order_fingers.py:4 | the same three frames on a tracker made with the default threshold give ids 0, 0, 1 |
| Scenarios.AtThresholdIsFresh | order_fingers.py:66 | a touch at exactly the threshold distance gets a fresh id |
| Scenarios.AtThresholdIsFreshOld | order_fingers.py:37 | the same boundary in the first-come matcher |

## Left out

- IEEE floating point: positions are exact reals. A NaN position is modelled as `None`, the same as Python's `None`.
- The `print` calls of `assign_ids_old` (order_fingers.py:31, 36) are output only.
- The test `if matched[new_index] is not None: continue` (order_fingers.py:76-77) never fires. Each valid index appears once in `new_to_old` (`RunFacts.SortedRequests` proves the processing order has distinct indices), so it is not modelled.
- In `assign_ids_old` the set `used_old_ids` is modelled as the set of ids handed out earlier in the frame (`FirstCome.IdSet`). Both branches add exactly the id they append.
- The iteration order of `active_touches` in `assign_ids` is not modelled. The candidate list is sorted by (distance, id), and the ids are distinct, so the order cannot affect the result (`StableSort.LexUnique`).
- The dict iteration order in `assign_ids_old` does matter on ties. There the dict is a list of entries in insertion order.
- Calling both matchers on one tracker is not modelled. The old one stores `(pos, pressure)` pairs and the new one bare positions, so mixing them fails at unpacking in Python.
- `gesture-images.py` and `merge-dbs.py` are not part of this model. They are database and image I/O scripts that only consume the tracker's output.
- `order_fingers_original.py` is not part of this model. It is the first-come algorithm again, with globals and a fixed threshold, and is covered by `FirstCome`.
- `clear` empties `active_touches` and keeps `next_touch_id` (order_fingers.py:15-16). `gesture-images.py:44` calls `tracker.clear()` before each session task, so ids keep counting up across tasks. `AssignTheorems.ClearThenFresh` states what a frame right after `clear` gets.
- Assign.Claim: its own contract states only the length of the result and that the counter does not decrease. What the loop hands out is stated in `Assign.ClaimGreedy`, `Assign.ClaimDistinct` and `Assign.ClaimAllFresh`.
