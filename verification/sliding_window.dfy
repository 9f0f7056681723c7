/**
 The timestamp filter shared by the two sliding-window limiters
 (backend/rateLimit.go and frontend/js/canvasRenderer.js), and the
 guarantee a window limiter gives: with a clock that never goes back, any
 `limit + 1` admitted events span at least the window.
 */
module SlidingWindow {

  /** The timestamps of `ts` strictly later than `cutoff`, in their order. */
  function Recent(ts: seq<int>, cutoff: int): (r: seq<int>)
    ensures |r| <= |ts|
    ensures forall i :: 0 <= i < |r| ==> r[i] > cutoff
    decreases |ts|
  {
    if |ts| == 0 then []
    else
      var init, last := ts[..|ts| - 1], ts[|ts| - 1];
      if last > cutoff then Recent(init, cutoff) + [last] else Recent(init, cutoff)
  }

  /** The filter keeps every occurrence of a timestamp later than the cutoff, and nothing else. */
  lemma {:induction false} RecentContents(ts: seq<int>, cutoff: int)
    ensures forall t :: t > cutoff ==> multiset(Recent(ts, cutoff))[t] == multiset(ts)[t]
    ensures forall t :: t <= cutoff ==> multiset(Recent(ts, cutoff))[t] == 0
    decreases |ts|
  {
    if |ts| > 0 {
      var init, last := ts[..|ts| - 1], ts[|ts| - 1];
      assert ts == init + [last];
      RecentContents(init, cutoff);
    }
  }

  /** When every timestamp is later than the cutoff, the filter keeps them all. */
  lemma {:induction false} RecentAll(ts: seq<int>, cutoff: int)
    requires forall i :: 0 <= i < |ts| ==> ts[i] > cutoff
    ensures Recent(ts, cutoff) == ts
    decreases |ts|
  {
    if |ts| > 0 {
      RecentAll(ts[..|ts| - 1], cutoff);
    }
  }

  predicate Sorted(ts: seq<int>) {
    forall i, j :: 0 <= i < j < |ts| ==> ts[i] <= ts[j]
  }

  lemma RecentAppend(ts: seq<int>, t: int, cutoff: int)
    ensures Recent(ts + [t], cutoff) == if t > cutoff then Recent(ts, cutoff) + [t] else Recent(ts, cutoff)
  {
    assert (ts + [t])[..|ts|] == ts;
  }

  /** Filtering at a cutoff and then at a later one is filtering at the later one. */
  lemma {:induction false} RecentTwice(ts: seq<int>, early: int, late: int)
    requires early <= late
    ensures Recent(Recent(ts, early), late) == Recent(ts, late)
    decreases |ts|
  {
    if |ts| > 0 {
      var init, last := ts[..|ts| - 1], ts[|ts| - 1];
      RecentTwice(init, early, late);
      if last > early {
        RecentAppend(Recent(init, early), last, late);
      }
    }
  }

  /** A suffix lying after the cutoff survives the filter whole. */
  lemma {:induction false} RecentKeepsSuffix(ts: seq<int>, i: nat, cutoff: int)
    requires i <= |ts|
    requires forall j :: i <= j < |ts| ==> ts[j] > cutoff
    ensures |Recent(ts, cutoff)| >= |ts| - i
    decreases |ts|
  {
    if i < |ts| {
      RecentKeepsSuffix(ts[..|ts| - 1], i, cutoff);
    }
  }

  /**
   Each event of `admitted` found fewer than `limit` earlier events less than
   `window` old when it was admitted.
   */
  predicate WindowAdmitted(admitted: seq<int>, window: int, limit: nat) {
    forall k {:trigger FoundRoom(admitted[..k], admitted[k], window, limit)} :: 0 <= k < |admitted| ==> FoundRoom(admitted[..k], admitted[k], window, limit)
  }

  /** Fewer than `limit` of `earlier` are less than `window` older than `t`. */
  predicate FoundRoom(earlier: seq<int>, t: int, window: int, limit: nat) {
    |Recent(earlier, t - window)| < limit
  }

  lemma WindowAdmittedAppend(admitted: seq<int>, t: int, window: int, limit: nat)
    requires WindowAdmitted(admitted, window, limit)
    requires |Recent(admitted, t - window)| < limit
    ensures WindowAdmitted(admitted + [t], window, limit)
  {
    var a := admitted + [t];
    forall k | 0 <= k < |a| ensures FoundRoom(a[..k], a[k], window, limit) {
      if k < |admitted| {
        assert a[..k] == admitted[..k] && a[k] == admitted[k];
        assert FoundRoom(admitted[..k], admitted[k], window, limit);
      } else {
        assert a[..k] == admitted && a[k] == t;
      }
    }
  }

  /** Any `limit + 1` sorted admitted events span at least `window`. */
  lemma WindowSpacing(admitted: seq<int>, window: int, limit: nat, i: nat)
    requires Sorted(admitted)
    requires WindowAdmitted(admitted, window, limit)
    requires i + limit < |admitted|
    ensures admitted[i + limit] - admitted[i] >= window
  {
    var k := i + limit;
    assert FoundRoom(admitted[..k], admitted[k], window, limit);
    if admitted[i] > admitted[k] - window {
      RecentKeepsSuffix(admitted[..k], i, admitted[k] - window);
      assert false;
    }
  }

  /**
   One limiter call at `now` over the stored timestamps: admitted when fewer
   than `limit` of them are later than `now - window`, and then the stored
   list becomes those plus `now`. A refusal stores the filtered list when
   `prune` is set and leaves the list alone otherwise.
   */
  function WindowStep(stored: seq<int>, now: int, window: int, limit: nat, prune: bool): (r: (seq<int>, bool))
    ensures r.1 <==> |Recent(stored, now - window)| < limit
    ensures r.1 ==> r.0 == Recent(stored, now - window) + [now]
    ensures !r.1 && prune ==> r.0 == Recent(stored, now - window)
    ensures !r.1 && !prune ==> r.0 == stored
  {
    var recent := Recent(stored, now - window);
    if |recent| >= limit then (if prune then recent else stored, false)
    else (recent + [now], true)
  }

  /** The times admitted over successive calls at `times`, starting from the stored list `stored`. */
  function WindowAccepted(stored: seq<int>, times: seq<int>, window: int, limit: nat, prune: bool): seq<int>
    decreases |times|
  {
    if |times| == 0 then []
    else
      var step := WindowStep(stored, times[0], window, limit, prune);
      var rest := WindowAccepted(step.0, times[1..], window, limit, prune);
      if step.1 then [times[0]] + rest else rest
  }

  /** The admitted times are some of the call times, in order. */
  lemma {:induction false} AcceptedFromCalls(stored: seq<int>, times: seq<int>, window: int, limit: nat, prune: bool)
    requires Sorted(times)
    ensures Sorted(WindowAccepted(stored, times, window, limit, prune))
    ensures forall j :: 0 <= j < |WindowAccepted(stored, times, window, limit, prune)| ==>
              times[0] <= WindowAccepted(stored, times, window, limit, prune)[j]
    decreases |times|
  {
    if |times| > 0 {
      var step := WindowStep(stored, times[0], window, limit, prune);
      AcceptedFromCalls(step.0, times[1..], window, limit, prune);
    }
  }

  /**
   A positive window, and a stored list that is the admitted history cut at `cutoff`, with calls
   still to come at sorted times whose windows all start at or after the
   cutoff.
   */
  predicate Replayable(stored: seq<int>, history: seq<int>, cutoff: int, times: seq<int>, window: int, limit: nat) {
    && 0 < window
    && stored == Recent(history, cutoff)
    && Sorted(times)
    && (|times| > 0 ==> cutoff <= times[0] - window)
    && WindowAdmitted(history, window, limit)
  }

  lemma ConcatAssoc(a: seq<int>, b: seq<int>, c: seq<int>)
    ensures a + (b + c) == (a + b) + c
  {
  }

  /**
   Replaying the calls admits each event only when fewer than `limit` earlier
   admitted events lie within `window` before it.
   */
  lemma {:induction false} AcceptedInWindow(stored: seq<int>, history: seq<int>, cutoff: int, times: seq<int>, window: int, limit: nat, prune: bool)
    requires Replayable(stored, history, cutoff, times, window, limit)
    ensures WindowAdmitted(history + WindowAccepted(stored, times, window, limit, prune), window, limit)
    decreases |times|, 1
  {
    if |times| == 0 {
      assert history + WindowAccepted(stored, times, window, limit, prune) == history;
    } else if WindowStep(stored, times[0], window, limit, prune).1 {
      AdmittedCall(stored, history, cutoff, times, window, limit, prune);
    } else {
      RefusedCall(stored, history, cutoff, times, window, limit, prune);
    }
  }

  /** The first call is admitted: it joins the history, and the rest replays against the list it stored. */
  lemma {:induction false} AdmittedCall(stored: seq<int>, history: seq<int>, cutoff: int, times: seq<int>, window: int, limit: nat, prune: bool)
    requires |times| > 0 && WindowStep(stored, times[0], window, limit, prune).1
    requires Replayable(stored, history, cutoff, times, window, limit)
    ensures WindowAdmitted(history + WindowAccepted(stored, times, window, limit, prune), window, limit)
    decreases |times|, 0
  {
    var now, rest := times[0], times[1..];
    AdmittedStep(stored, history, cutoff, times, window, limit, prune);
    var kept := WindowStep(stored, now, window, limit, prune).0;
    AcceptedInWindow(kept, history + [now], now - window, rest, window, limit, prune);
    ConcatAssoc(history, [now], WindowAccepted(kept, rest, window, limit, prune));
  }

  /** What an admitted first call hands on to the replay of the remaining calls. */
  lemma AdmittedStep(stored: seq<int>, history: seq<int>, cutoff: int, times: seq<int>, window: int, limit: nat, prune: bool)
    requires |times| > 0 && WindowStep(stored, times[0], window, limit, prune).1
    requires Replayable(stored, history, cutoff, times, window, limit)
    ensures Replayable(WindowStep(stored, times[0], window, limit, prune).0, history + [times[0]], times[0] - window, times[1..], window, limit)
    ensures WindowAccepted(stored, times, window, limit, prune)
            == [times[0]] + WindowAccepted(WindowStep(stored, times[0], window, limit, prune).0, times[1..], window, limit, prune)
  {
    var now := times[0];
    AdmittedHistory(stored, history, cutoff, now, window, limit, prune);
    assert Sorted(times[1..]);
  }

  /** An admitted call stores the admitted history, extended by it, cut at its window start. */
  lemma AdmittedHistory(stored: seq<int>, history: seq<int>, cutoff: int, now: int, window: int, limit: nat, prune: bool)
    requires 0 < window && WindowStep(stored, now, window, limit, prune).1
    requires stored == Recent(history, cutoff) && cutoff <= now - window
    requires WindowAdmitted(history, window, limit)
    ensures WindowStep(stored, now, window, limit, prune).0 == Recent(history + [now], now - window)
    ensures WindowAdmitted(history + [now], window, limit)
  {
    RecentTwice(history, cutoff, now - window);
    RecentAppend(history, now, now - window);
    WindowAdmittedAppend(history, now, window, limit);
  }

  /** The first call is refused: the history stays, and the rest replays against the list it left. */
  lemma {:induction false} RefusedCall(stored: seq<int>, history: seq<int>, cutoff: int, times: seq<int>, window: int, limit: nat, prune: bool)
    requires |times| > 0 && !WindowStep(stored, times[0], window, limit, prune).1
    requires Replayable(stored, history, cutoff, times, window, limit)
    ensures WindowAdmitted(history + WindowAccepted(stored, times, window, limit, prune), window, limit)
    decreases |times|, 0
  {
    var next := if prune then times[0] - window else cutoff;
    RefusedStep(stored, history, cutoff, times, window, limit, prune);
    AcceptedInWindow(WindowStep(stored, times[0], window, limit, prune).0, history, next, times[1..], window, limit, prune);
  }

  /** What a refused first call hands on: the same history, cut at the call's window start when the limiter prunes. */
  lemma RefusedStep(stored: seq<int>, history: seq<int>, cutoff: int, times: seq<int>, window: int, limit: nat, prune: bool)
    requires |times| > 0 && !WindowStep(stored, times[0], window, limit, prune).1
    requires Replayable(stored, history, cutoff, times, window, limit)
    ensures Replayable(WindowStep(stored, times[0], window, limit, prune).0, history,
                       if prune then times[0] - window else cutoff, times[1..], window, limit)
    ensures WindowAccepted(stored, times, window, limit, prune)
            == WindowAccepted(WindowStep(stored, times[0], window, limit, prune).0, times[1..], window, limit, prune)
  {
    RecentTwice(history, cutoff, times[0] - window);
  }

  /**
   A window limiter started empty, with a clock that never goes back: the
   `limit`-th admitted event after any admitted event comes at least `window`
   after it, so no span shorter than `window` holds more than `limit` of them.
   */
  lemma LimitPerWindow(times: seq<int>, window: int, limit: nat, prune: bool, i: nat)
    requires 0 < window
    requires Sorted(times)
    requires i + limit < |WindowAccepted([], times, window, limit, prune)|
    ensures WindowAccepted([], times, window, limit, prune)[i + limit] - WindowAccepted([], times, window, limit, prune)[i] >= window
  {
    var accepted := WindowAccepted([], times, window, limit, prune);
    assert Replayable([], [], times[0] - window, times, window, limit);
    AcceptedInWindow([], [], times[0] - window, times, window, limit, prune);
    AcceptedFromCalls([], times, window, limit, prune);
    assert [] + accepted == accepted;
    WindowSpacing(accepted, window, limit, i);
  }
}
