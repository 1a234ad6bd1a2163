/** A model of the action-list assembly of the capsule example: the validity
    filter over the analysed tracks, the start / per-pair transition / end
    groups, their concatenation in track order, and the output duration that
    the caller reports as the sum of the actions' durations.

    Tracks and actions are type parameters (`T` and `A`): the model never looks
    inside them. Every collaborator the model keeps is a field of
    `Collaborators`, so its behaviour is left open and every result below holds
    for any choice of those functions. */
module Capsule {

  datatype Result<R, E> = Success(value: R) | Failure(error: E)

  /** Why no action list can be produced. `do_work` in capsule.py indexes the
      first element of an empty list, which raises; here that is an explicit
      error. */
  datatype BuildError = NoValidTrack

  /** The terminal style passed to `terminate`; the assembly only ever uses the
      fade-out style. */
  datatype TerminalMode = FadeOut

  /** The functions `do_work` calls (and, for `duration`, that `main` reads)
      whose code is not part of this model. */
  datatype Collaborators<!T, !A> = Collaborators(
    isValid: (T, real, real) -> bool,                // is_valid(track, inter, trans)
    initialize: (T, real, real) -> seq<A>,           // initialize(track, inter, trans)
    makeTransition: (T, T, real, real) -> seq<A>,    // make_transition(t1, t2, inter, trans)
    terminate: (T, TerminalMode) -> seq<A>,          // terminate(track, mode)
    makeStereo: T -> T,                              // make_stereo(track)
    duration: A -> real                              // act.duration
  )

  /** Every transition group has two actions (crossmatch, playback), as the
      comments in capsule.py announce. */
  ghost predicate TransitionSizes<T(!new), A>(c: Collaborators<T, A>, inter: real, trans: real)
  {
    forall t1, t2 :: |c.makeTransition(t1, t2, inter, trans)| == 2
  }

  /** The group sizes the comments in capsule.py announce: two actions to start
      (fade-in, playback), two per transition (crossmatch, playback) and one to
      end (fade-out). */
  ghost predicate CommentedGroupSizes<T(!new), A>(c: Collaborators<T, A>, inter: real, trans: real)
  {
    (forall t :: |c.initialize(t, inter, trans)| == 2) &&
    TransitionSizes(c, inter, trans) &&
    (forall t :: |c.terminate(t, FadeOut)| == 1)
  }

  // ---------------------------------------------------------------------------
  // Validity filter

  /** The tracks that pass `isValid`, in input order: the list the filter loop
      builds, one track appended at a time. It is empty exactly when no input
      track passes. */
  function ValidTracks<T, A>(c: Collaborators<T, A>, tracks: seq<T>, inter: real, trans: real): (valid: seq<T>)
    ensures |valid| <= |tracks|
    ensures valid == [] <==> forall j :: 0 <= j < |tracks| ==> !c.isValid(tracks[j], inter, trans)
  {
    if tracks == [] then []
    else
      var last := tracks[|tracks| - 1];
      ValidTracks(c, tracks[..|tracks| - 1], inter, trans) + (if c.isValid(last, inter, trans) then [last] else [])
  }

  /** Filtering distributes over concatenation: the survivors of `a + b` are the
      survivors of `a` followed by those of `b`. */
  lemma {:induction false} ValidTracksAppend<T, A>(c: Collaborators<T, A>, a: seq<T>, b: seq<T>, inter: real, trans: real)
    ensures ValidTracks(c, a + b, inter, trans) == ValidTracks(c, a, inter, trans) + ValidTracks(c, b, inter, trans)
  {
    if b != [] {
      var n := |b| - 1;
      assert (a + b)[..|a + b| - 1] == a + b[..n];
      assert (a + b)[|a + b| - 1] == b[n];
      ValidTracksAppend(c, a, b[..n], inter, trans);
    } else {
      assert a + b == a;
    }
  }

  /** The filter selects exactly the valid positions of the input, strictly in
      increasing order: `idx` lists those positions and the i-th kept track is
      the input track at `idx[i]`. */
  lemma {:induction false} ValidTracksIndices<T, A>(c: Collaborators<T, A>, tracks: seq<T>, inter: real, trans: real)
    returns (idx: seq<nat>)
    ensures |idx| == |ValidTracks(c, tracks, inter, trans)|
    ensures forall k :: 0 <= k < |idx| ==> idx[k] < |tracks| && ValidTracks(c, tracks, inter, trans)[k] == tracks[idx[k]]
    ensures forall k, l :: 0 <= k < l < |idx| ==> idx[k] < idx[l]
    ensures forall j :: 0 <= j < |tracks| ==> (c.isValid(tracks[j], inter, trans) <==> j in idx)
  {
    if tracks == [] {
      idx := [];
    } else {
      var n := |tracks| - 1;
      var init := tracks[..n];
      var prev := ValidTracksIndices(c, init, inter, trans);
      assert forall j :: 0 <= j < n ==> init[j] == tracks[j];
      if c.isValid(tracks[n], inter, trans) {
        idx := prev + [n];
      } else {
        idx := prev;
      }
    }
  }

  /** The filter never adds or duplicates a track: a track is kept exactly when
      it is an input track that passes `isValid`, and each track is kept at most
      as often as it occurs in the input. */
  lemma {:induction false} ValidTracksMembers<T, A>(c: Collaborators<T, A>, tracks: seq<T>, inter: real, trans: real)
    ensures forall t :: t in ValidTracks(c, tracks, inter, trans) <==> t in tracks && c.isValid(t, inter, trans)
    ensures multiset(ValidTracks(c, tracks, inter, trans)) <= multiset(tracks)
  {
    if tracks != [] {
      var n := |tracks| - 1;
      ValidTracksMembers(c, tracks[..n], inter, trans);
      assert tracks == tracks[..n] + [tracks[n]];
    }
  }

  // ---------------------------------------------------------------------------
  // Consecutive pairs

  /** The consecutive pairs of `s`, in order: what the assembly iterates over to
      build the transitions. */
  function Pairs<T>(s: seq<T>): (pairs: seq<(T, T)>)
    ensures |pairs| == if |s| < 2 then 0 else |s| - 1
    ensures forall i :: 0 <= i < |pairs| ==> pairs[i] == (s[i], s[i + 1])
  {
    if |s| < 2 then [] else [(s[0], s[1])] + Pairs(s[1..])
  }

  // ---------------------------------------------------------------------------
  // Transition groups

  /** The middle of the mix: the transition group of each pair, concatenated in
      pair order, as `middle.extend` leaves it after the last pair. The first
      pair's group opens it and the last pair's group closes it. */
  function Middle<T, A>(c: Collaborators<T, A>, pairs: seq<(T, T)>, inter: real, trans: real): (m: seq<A>)
    ensures pairs != [] ==> c.makeTransition(pairs[0].0, pairs[0].1, inter, trans) <= m
    ensures pairs != [] ==>
      var g := c.makeTransition(pairs[|pairs| - 1].0, pairs[|pairs| - 1].1, inter, trans);
      |g| <= |m| && m[|m| - |g|..] == g
  {
    if pairs == [] then []
    else
      var last := pairs[|pairs| - 1];
      Middle(c, pairs[..|pairs| - 1], inter, trans) + c.makeTransition(last.0, last.1, inter, trans)
  }

  /** Building the middle over `p + q` gives the middle of `p` followed by the
      middle of `q`: no group is reordered or merged across pairs. */
  lemma {:induction false} MiddleAppend<T, A>(c: Collaborators<T, A>, p: seq<(T, T)>, q: seq<(T, T)>, inter: real, trans: real)
    ensures Middle(c, p + q, inter, trans) == Middle(c, p, inter, trans) + Middle(c, q, inter, trans)
  {
    if q != [] {
      var n := |q| - 1;
      assert (p + q)[..|p + q| - 1] == p + q[..n];
      assert (p + q)[|p + q| - 1] == q[n];
      MiddleAppend(c, p, q[..n], inter, trans);
    } else {
      assert p + q == p;
    }
  }

  /** With two actions per transition, the middle holds exactly two actions per
      pair, and actions 2i and 2i+1 are the transition group of pair i. */
  lemma {:induction false} MiddleGroupAt<T(!new), A>(c: Collaborators<T, A>, pairs: seq<(T, T)>, inter: real, trans: real)
    requires TransitionSizes(c, inter, trans)
    ensures |Middle(c, pairs, inter, trans)| == 2 * |pairs|
    ensures forall i :: 0 <= i < |pairs| ==>
      Middle(c, pairs, inter, trans)[2 * i .. 2 * i + 2] == c.makeTransition(pairs[i].0, pairs[i].1, inter, trans)
  {
    if pairs != [] {
      var n := |pairs| - 1;
      var init := pairs[..n];
      MiddleGroupAt(c, init, inter, trans);
      var m0 := Middle(c, init, inter, trans);
      var g := c.makeTransition(pairs[n].0, pairs[n].1, inter, trans);
      assert |g| == 2;
      var m := Middle(c, pairs, inter, trans);
      assert m == m0 + g;
      forall i | 0 <= i < |pairs|
        ensures m[2 * i .. 2 * i + 2] == c.makeTransition(pairs[i].0, pairs[i].1, inter, trans)
      {
        if i < n {
          assert m[2 * i .. 2 * i + 2] == m0[2 * i .. 2 * i + 2];
          assert init[i] == pairs[i];
        } else {
          assert m[2 * i .. 2 * i + 2] == g;
        }
      }
    }
  }

  // ---------------------------------------------------------------------------
  // Assembly

  /** The action list for `tracks`: start group of the first valid track,
      transition groups of the consecutive valid pairs, end group of the last
      valid track; an error when no track is valid. */
  function MixActions<T, A>(c: Collaborators<T, A>, tracks: seq<T>, inter: real, trans: real): (r: Result<seq<A>, BuildError>)
    ensures r.Failure? <==> forall j :: 0 <= j < |tracks| ==> !c.isValid(tracks[j], inter, trans)
  {
    var valid := ValidTracks(c, tracks, inter, trans);
    if valid == [] then Failure(NoValidTrack)
    else
      Success(c.initialize(valid[0], inter, trans)
              + Middle(c, Pairs(valid), inter, trans)
              + c.terminate(valid[|valid| - 1], FadeOut))
  }

  /** With exactly one valid track there is no transition: the list is that
      track's start group followed by its end group, whatever their sizes. */
  lemma SingleValidTrack<T, A>(c: Collaborators<T, A>, tracks: seq<T>, inter: real, trans: real)
    requires |ValidTracks(c, tracks, inter, trans)| == 1
    ensures var v := ValidTracks(c, tracks, inter, trans)[0];
            MixActions(c, tracks, inter, trans) == Success(c.initialize(v, inter, trans) + c.terminate(v, FadeOut))
  {
    var valid := ValidTracks(c, tracks, inter, trans);
    assert Pairs(valid) == [];
    var s := c.initialize(valid[0], inter, trans);
    assert s + Middle(c, Pairs(valid), inter, trans) == s;
  }

  /** Under the commented group sizes, with N valid tracks the list has 2N+1
      actions: the first two are the start group of the first valid track, the
      two at 2+2i are the transition from valid track i to valid track i+1, and
      the last one is the fade-out of the last valid track. A single valid track
      gives its start group followed by its end group, three actions. */
  lemma ActionSequence<T(!new), A>(c: Collaborators<T, A>, tracks: seq<T>, inter: real, trans: real)
    requires CommentedGroupSizes(c, inter, trans)
    requires MixActions(c, tracks, inter, trans).Success?
    ensures var valid := ValidTracks(c, tracks, inter, trans);
            var r := MixActions(c, tracks, inter, trans).value;
            var n := |valid|;
            && n >= 1
            && |r| == 2 * n + 1
            && r[..2] == c.initialize(valid[0], inter, trans)
            && (forall i :: 0 <= i < n - 1 ==>
                  r[2 + 2 * i .. 4 + 2 * i] == c.makeTransition(valid[i], valid[i + 1], inter, trans))
            && r[2 * n..] == c.terminate(valid[n - 1], FadeOut)
            && (n == 1 ==> r == c.initialize(valid[0], inter, trans) + c.terminate(valid[0], FadeOut))
  {
    var valid := ValidTracks(c, tracks, inter, trans);
    var n := |valid|;
    var s := c.initialize(valid[0], inter, trans);
    var pairs := Pairs(valid);
    var m := Middle(c, pairs, inter, trans);
    var e := c.terminate(valid[n - 1], FadeOut);
    var r := MixActions(c, tracks, inter, trans).value;
    assert r == s + m + e;
    MiddleGroupAt(c, pairs, inter, trans);
    assert |s| == 2 && |e| == 1 && |m| == 2 * (n - 1);
    forall i | 0 <= i < n - 1
      ensures r[2 + 2 * i .. 4 + 2 * i] == c.makeTransition(valid[i], valid[i + 1], inter, trans)
    {
      assert r[2 + 2 * i .. 4 + 2 * i] == m[2 * i .. 2 * i + 2];
      assert pairs[i] == (valid[i], valid[i + 1]);
    }
    assert r[..2] == s;
    assert r[2 * n..] == e;
    if n == 1 {
      assert m == [];
    }
  }

  // ---------------------------------------------------------------------------
  // Output duration

  /** The output duration `main` reports: the durations of the actions, summed
      left to right. When no action has a negative duration, the total is
      non-negative and at least the duration of every single action. */
  function Duration<T, A>(c: Collaborators<T, A>, actions: seq<A>): (d: real)
    ensures (forall i :: 0 <= i < |actions| ==> c.duration(actions[i]) >= 0.0) ==>
      d >= 0.0 && forall i :: 0 <= i < |actions| ==> c.duration(actions[i]) <= d
  {
    if actions == [] then 0.0
    else Duration(c, actions[..|actions| - 1]) + c.duration(actions[|actions| - 1])
  }

  /** The duration of a concatenation is the sum of the durations of its parts. */
  lemma {:induction false} DurationAppend<T, A>(c: Collaborators<T, A>, a: seq<A>, b: seq<A>)
    ensures Duration(c, a + b) == Duration(c, a) + Duration(c, b)
  {
    if b != [] {
      var n := |b| - 1;
      assert (a + b)[..|a + b| - 1] == a + b[..n];
      assert (a + b)[|a + b| - 1] == b[n];
      DurationAppend(c, a, b[..n]);
    } else {
      assert a + b == a;
    }
  }

  /** The durations of the transition groups, summed pair by pair. */
  function TransitionsDuration<T, A>(c: Collaborators<T, A>, pairs: seq<(T, T)>, inter: real, trans: real): (d: real)
  {
    if pairs == [] then 0.0
    else
      var last := pairs[|pairs| - 1];
      TransitionsDuration(c, pairs[..|pairs| - 1], inter, trans) + Duration(c, c.makeTransition(last.0, last.1, inter, trans))
  }

  /** The middle lasts as long as its transition groups together. */
  lemma {:induction false} MiddleDuration<T, A>(c: Collaborators<T, A>, pairs: seq<(T, T)>, inter: real, trans: real)
    ensures Duration(c, Middle(c, pairs, inter, trans)) == TransitionsDuration(c, pairs, inter, trans)
  {
    if pairs != [] {
      var n := |pairs| - 1;
      MiddleDuration(c, pairs[..n], inter, trans);
      DurationAppend(c, Middle(c, pairs[..n], inter, trans), c.makeTransition(pairs[n].0, pairs[n].1, inter, trans));
    }
  }

  /** The reported output duration is the start group's duration, plus each
      transition group's duration, plus the end group's duration. */
  lemma MixDuration<T, A>(c: Collaborators<T, A>, tracks: seq<T>, inter: real, trans: real)
    requires MixActions(c, tracks, inter, trans).Success?
    ensures var valid := ValidTracks(c, tracks, inter, trans);
            Duration(c, MixActions(c, tracks, inter, trans).value)
              == Duration(c, c.initialize(valid[0], inter, trans))
               + TransitionsDuration(c, Pairs(valid), inter, trans)
               + Duration(c, c.terminate(valid[|valid| - 1], FadeOut))
  {
    var valid := ValidTracks(c, tracks, inter, trans);
    var s := c.initialize(valid[0], inter, trans);
    var m := Middle(c, Pairs(valid), inter, trans);
    var e := c.terminate(valid[|valid| - 1], FadeOut);
    DurationAppend(c, s + m, e);
    DurationAppend(c, s, m);
    MiddleDuration(c, Pairs(valid), inter, trans);
  }

  // ---------------------------------------------------------------------------
  // The assembly as `do_work` in capsule.py performs it

  /** The action-list assembly: a loop that keeps the valid tracks, a loop that
      extends the middle with one transition group per consecutive pair, and the
      concatenation of start, middle and end. */
  method DoWork<T, A>(c: Collaborators<T, A>, tracks: seq<T>, inter: real, trans: real)
    returns (r: Result<seq<A>, BuildError>)
    ensures r == MixActions(c, tracks, inter, trans)
  {
    var valid: seq<T> := [];
    for i := 0 to |tracks|
      invariant valid == ValidTracks(c, tracks[..i], inter, trans)
    {
      var track := tracks[i];
      assert tracks[..i + 1][..i] == tracks[..i];
      if c.isValid(track, inter, trans) {
        valid := valid + [track];
      }
      // the stereo copy is only bound to the loop variable; `valid` keeps the track as tested
      track := c.makeStereo(track);
    }
    assert tracks[..|tracks|] == tracks;

    if valid == [] {
      return Failure(NoValidTrack);
    }
    var start := c.initialize(valid[0], inter, trans);

    var pairs := Pairs(valid);
    var middle: seq<A> := [];
    for j := 0 to |pairs|
      invariant middle == Middle(c, pairs[..j], inter, trans)
    {
      assert pairs[..j + 1][..j] == pairs[..j];
      var (t1, t2) := pairs[j];
      middle := middle + c.makeTransition(t1, t2, inter, trans);
    }
    assert pairs[..|pairs|] == pairs;

    var end := c.terminate(valid[|valid| - 1], FadeOut);
    r := Success(start + middle + end);
  }
}
