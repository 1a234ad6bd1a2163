# capsule: action-list assembly

This is a Dafny model of how `do_work` in `examples/capsule/capsule.py` builds the
list of rendering actions for a mix of tracks. It does four things:

1. It walks the tracks in order. Inside that loop it resamples and whitens each track, then keeps the track if `is_valid(track, inter, trans)` accepts it.
2. It asks `initialize` for the start group of the first kept track. The comment in capsule.py says this group is a fade-in and a playback.
3. For each consecutive pair of kept tracks, as given by `tuples`, it asks `make_transition` for a transition group (a crossmatch and a playback) and appends that group to `middle`.
4. It asks `terminate(..., FADE_OUT)` for the end group of the last kept track.

The result is `start + middle + end`. Afterwards `main` reports the output
duration as the sum of the actions' `duration` fields.

The model is one module, `Capsule`, in `capsule.dfy`:

- **Abstract types.** Tracks and actions are the type parameters `T` and `A`.
- **Collaborators.** Every collaborator the model keeps is a field of the `Collaborators` datatype: `is_valid`, `initialize`, `make_transition`, `terminate` and `make_stereo`, which `do_work` calls, and an action's `duration`, which `main` reads. Their code is not part of this model, so the results hold for any such functions.
- **Pairs.** `utils.tuples` is not part of this model. `Pairs` models it, assuming it yields the consecutive pairs `(s[i], s[i+1])` of its argument, in order.
- **Resampling.** The resampling and whitening inside the filter loop are left out (see below).
- **Group sizes.** The sizes announced in the comments of capsule.py are a hypothesis, `CommentedGroupSizes`: start 2, each transition 2, end 1. Only the lemmas that count actions assume it, and `MiddleGroupAt` assumes only its transition part.
- **Error case.** When no track is valid, `do_work` fails by indexing an empty list. The model returns the explicit error `Failure(NoValidTrack)`.
- **The method.** `DoWork` keeps the two loops of `do_work`: the filter that appends to `valid`, and the loop that extends `middle` once per pair. It is proved equal to the specification function `MixActions`, and the lemmas state properties of that function.

## Model

| member | source | states |
|---|---|---|
| Capsule.DoWork | examples/capsule/capsule.py:45-69 | The filter loop and the middle-extending loop produce exactly `MixActions`. It is an error when no track is valid. Otherwise the list is the first valid track's start group, then the transition groups of the consecutive valid pairs, then the last valid track's end group. Rebinding the loop variable to the `make_stereo` result does not change what was appended. |
| Capsule.ValidTracks | examples/capsule/capsule.py:45-56 | Filtering never yields more tracks than it was given. The kept list is empty if and only if no input track passes `is_valid`. |
| Capsule.ValidTracksIndices | examples/capsule/capsule.py:47-53 | The kept tracks are the input tracks at a strictly increasing list of positions. A position is in that list if and only if its track passes `is_valid`. So the filter is order-preserving and keeps exactly the valid tracks. |
| Capsule.ValidTracksMembers | examples/capsule/capsule.py:47-55 | A track is kept if and only if it is an input track that passes `is_valid`. The kept list is a sub-multiset of the input, so nothing is added or duplicated. |
| Capsule.ValidTracksAppend | examples/capsule/capsule.py:47-53 | Filtering `a + b` gives the survivors of `a` followed by the survivors of `b`, so relative order is preserved. |
| Capsule.Pairs | examples/capsule/capsule.py:64 | With n tracks there are n-1 pairs (none when n < 2), and pair i is `(s[i], s[i+1])`. |
| Capsule.Middle | examples/capsule/capsule.py:63-64 | The middle that `middle.extend` builds over the pairs: the first pair's transition group opens it and the last pair's group closes it. MiddleAppend and MiddleGroupAt give the full layout in pair order. |
| Capsule.MiddleAppend | examples/capsule/capsule.py:63-64 | Extending the middle over `p + q` gives the middle of `p` followed by the middle of `q`, so the groups appear in pair order. |
| Capsule.MiddleGroupAt | examples/capsule/capsule.py:62-64 | If every transition group has 2 actions, the middle has 2 actions per pair, and actions 2i and 2i+1 are exactly `make_transition` of pair i. |
| Capsule.MixActions | examples/capsule/capsule.py:56-69 | The action list `do_work` returns. It is an error if and only if no input track passes `is_valid`, which models the failing `tracks[0]`. ActionSequence gives the layout of a successful list, SingleValidTrack the one-track case and MixDuration its duration. |
| Capsule.SingleValidTrack | examples/capsule/capsule.py:60-69 | With exactly one valid track, whatever the group sizes, the list is that track's start group followed by its end group. No transition is built. |
| Capsule.ActionSequence | examples/capsule/capsule.py:58-69 | Take N valid tracks under the commented group sizes. The list has 2N+1 actions. The first two are `initialize` of the first valid track. Actions 2+2i and 3+2i are `make_transition(valid[i], valid[i+1])`. The last action is the fade-out of the last valid track. With N = 1 the list is the start group followed by the end group: 3 actions and no transition. |
| Capsule.DurationAppend | examples/capsule/capsule.py:97 | The summed duration of a concatenation is the sum of the parts' durations. |
| Capsule.Duration | examples/capsule/capsule.py:97 | The sum of the actions' durations that `main` prints. If no action has a negative duration, the sum is non-negative and at least every single action's duration. DurationAppend shows that it is additive, and MixDuration splits it into the groups. |
| Capsule.MiddleDuration | examples/capsule/capsule.py:63-64 | The middle lasts as long as its transition groups together, summed pair by pair. |
| Capsule.MixDuration | examples/capsule/capsule.py:69 | The duration of the assembled list is the start group's duration, plus each transition group's duration, plus the end group's duration. |

## Left out

- Loading and analysing the audio files, including the `.json` cache check (capsule.py:29-30). This is file I/O in a foreign library.
- `order_tracks` and `equalize_tracks` (capsule.py:33-43). They are heuristics in `capsule_support`, which is not part of this model. Ordering happens before filtering, so the model's input sequence is the already-ordered one.
- `resample_features` and `timbre_whiten` (capsule.py:49-50). They are numeric matrix work in `capsule_support`. Every track is resampled before `is_valid` sees it, so the model treats its input tracks as already resampled.
- Whether `make_stereo` changes its argument in place. It is an echonest function and not part of this model. The model treats tracks as values, so aliasing between the stereo copy and the entry in `valid` is not represented.
- The internals of `is_valid`, `initialize`, `make_transition`, `terminate` and `duration`. They are uninterpreted fields of `Collaborators`. No validity threshold is assumed.
- `utils.tuples` is not part of this model. `Pairs` is the assumed definition: consecutive pairs in order.
- The value of `FADE_OUT` and any other terminal style. `TerminalMode` has only `FadeOut`.
- Verbose printing, `display_actions`, `render`, option parsing, `main`'s exit code, and the commented-out exception handler (capsule.py:71-105).
- Capsule.Duration: durations are exact reals. Floating-point rounding of the Python sum and of `float(options.inter)` is not modelled.
