/**
 The diagnostics refresh limit: a sliding window that keeps only what the last call of an actor
 left, and still admits exactly what the full history would.
 */
module RefreshLimiter {

  const WINDOW_MS := 120000
  const MAX_HITS: nat := 5

  type Buckets = map<string, seq<int>>

  function Key(actorId: string): string {
    "admin-system-health-refresh:" + actorId
  }

  /** `filter((t) => now - t < windowMs)` */
  function Fresh(times: seq<int>, now: int): seq<int> {
    if times == [] then []
    else
      var n := |times| - 1;
      if now - times[n] < WINDOW_MS then Fresh(times[..n], now) + [times[n]] else Fresh(times[..n], now)
  }

  function BucketOf(buckets: Buckets, actorId: string): seq<int> {
    if Key(actorId) in buckets then buckets[Key(actorId)] else []
  }

  predicate Admits(buckets: Buckets, actorId: string, now: int) {
    |Fresh(BucketOf(buckets, actorId), now)| < MAX_HITS
  }

  function Refreshed(buckets: Buckets, actorId: string, now: int): Buckets {
    var kept := Fresh(BucketOf(buckets, actorId), now);
    buckets[Key(actorId) := if |kept| < MAX_HITS then kept + [now] else kept]
  }

  class Limiter {
    var refreshBuckets: Buckets

    constructor ()
      ensures refreshBuckets == map[]
    {
      refreshBuckets := map[];
    }

    /** The limited part of a refresh: false is the 429 answer. */
    method RefreshDiagnostics(actorId: string, now: int) returns (accepted: bool)
      modifies this
      ensures accepted <==> Admits(old(refreshBuckets), actorId, now)
      ensures refreshBuckets == Refreshed(old(refreshBuckets), actorId, now)
    {
      var key := Key(actorId);
      var bucket := if key in refreshBuckets then refreshBuckets[key] else [];
      refreshBuckets := refreshBuckets[key := bucket];
      var kept: seq<int> := [];
      var i := 0;
      while i < |bucket|
        invariant 0 <= i <= |bucket| && kept == Fresh(bucket[..i], now)
        invariant refreshBuckets == old(refreshBuckets)[key := bucket]
      {
        assert bucket[..i + 1][..i] == bucket[..i];
        if now - bucket[i] < WINDOW_MS {
          kept := kept + [bucket[i]];
        }
        i := i + 1;
      }
      assert bucket[..i] == bucket;
      refreshBuckets := refreshBuckets[key := kept];
      if |kept| >= MAX_HITS {
        return false;
      }
      refreshBuckets := refreshBuckets[key := kept + [now]];
      accepted := true;
    }
  }

  // ---------------------------------------------------------------- whole histories

  datatype Call = Call(actorId: string, now: int)

  /** The buckets a history of calls leaves. */
  function After(calls: seq<Call>): Buckets {
    if calls == [] then map[]
    else
      var n := |calls| - 1;
      Refreshed(After(calls[..n]), calls[n].actorId, calls[n].now)
  }

  /** When an actor's refreshes were accepted. */
  function Accepted(calls: seq<Call>, actorId: string): seq<int> {
    if calls == [] then []
    else
      var n := |calls| - 1;
      var before := Accepted(calls[..n], actorId);
      if calls[n].actorId == actorId && Admits(After(calls[..n]), actorId, calls[n].now)
      then before + [calls[n].now] else before
  }

  lemma KeyInjective(a: string, b: string)
    ensures Key(a) == Key(b) ==> a == b
  {
    var prefix := "admin-system-health-refresh:";
    assert Key(a)[|prefix|..] == a && Key(b)[|prefix|..] == b;
  }

  lemma FreshNext(times: seq<int>, t: int, now: int)
    ensures Fresh(times + [t], now) == if now - t < WINDOW_MS then Fresh(times, now) + [t] else Fresh(times, now)
  {
    assert (times + [t])[..|times|] == times;
  }

  // ---------------------------------------------------------------- what pruning forgets

  lemma AfterNext(calls: seq<Call>, c: Call)
    ensures After(calls + [c]) == Refreshed(After(calls), c.actorId, c.now)
    ensures Accepted(calls + [c], c.actorId)
         == if Admits(After(calls), c.actorId, c.now) then Accepted(calls, c.actorId) + [c.now]
           else Accepted(calls, c.actorId)
  {
    assert (calls + [c])[..|calls|] == calls;
  }

  lemma BucketNext(calls: seq<Call>, c: Call, actorId: string)
    ensures c.actorId != actorId ==>
              && BucketOf(After(calls + [c]), actorId) == BucketOf(After(calls), actorId)
              && Accepted(calls + [c], actorId) == Accepted(calls, actorId)
    ensures c.actorId == actorId ==>
              var kept := Fresh(BucketOf(After(calls), actorId), c.now);
              if |kept| < MAX_HITS then
                BucketOf(After(calls + [c]), actorId) == kept + [c.now]
                  && Accepted(calls + [c], actorId) == Accepted(calls, actorId) + [c.now]
              else
                BucketOf(After(calls + [c]), actorId) == kept
                  && Accepted(calls + [c], actorId) == Accepted(calls, actorId)
  {
    hide Fresh, Key;
    KeyInjective(c.actorId, actorId);
    AfterNext(calls, c);
    assert (calls + [c])[..|calls|] == calls;
  }

  lemma {:induction false} FreshMembers(times: seq<int>, now: int)
    ensures forall t :: t in Fresh(times, now) <==> t in times && now - t < WINDOW_MS
  {
    if times != [] {
      var n := |times| - 1;
      FreshMembers(times[..n], now);
      assert times == times[..n] + [times[n]];
    }
  }

  /** The bucket holds accepted times only. */
  lemma {:induction false} BucketIsAccepted(calls: seq<Call>, actorId: string)
    ensures forall t :: t in BucketOf(After(calls), actorId) ==> t in Accepted(calls, actorId)
  {
    hide Fresh, After, Accepted, BucketOf;
    if calls == [] {
      NothingAccepted(actorId);
    } else {
      var n := |calls| - 1;
      assert calls == calls[..n] + [calls[n]];
      BucketIsAccepted(calls[..n], actorId);
      BucketNext(calls[..n], calls[n], actorId);
      FreshMembers(BucketOf(After(calls[..n]), actorId), calls[n].now);
    }
  }

  lemma NothingAccepted(actorId: string)
    ensures BucketOf(After([]), actorId) == [] && Accepted([], actorId) == []
  {
  }

  predicate AcceptedAt(calls: seq<Call>, actorId: string, i: nat)
    requires i < |calls|
  {
    calls[i].actorId == actorId && Admits(After(calls[..i]), actorId, calls[i].now)
  }

  /** The hit at `i` was pruned by the reading at `j`, and is fresh again at `now`. */
  predicate ForgottenBy(calls: seq<Call>, actorId: string, now: int, i: nat, j: nat)
    requires i < |calls| && j < |calls|
  {
    && i < j && AcceptedAt(calls, actorId, i) && calls[j].actorId == actorId
    && calls[j].now - calls[i].now >= WINDOW_MS && now - calls[i].now < WINDOW_MS
  }

  /** Some accepted hit was followed by a reading at least 120 seconds later, while `now` is less than 120
     seconds after it. */
  predicate Forgotten(calls: seq<Call>, actorId: string, now: int) {
    exists i: nat, j: nat :: i < |calls| && j < |calls| && ForgottenBy(calls, actorId, now, i, j)
  }

  /** The reading `late` forgets a time that `now` would count. */
  predicate Forgets(times: seq<int>, late: int, now: int) {
    exists t :: t in times && late - t >= WINDOW_MS && now - t < WINDOW_MS
  }

  lemma AcceptedAtPrefix(calls: seq<Call>, c: Call, actorId: string, i: nat)
    requires i < |calls|
    ensures AcceptedAt(calls + [c], actorId, i) <==> AcceptedAt(calls, actorId, i)
  {
    assert (calls + [c])[..i] == calls[..i];
  }

  lemma {:induction false} AcceptedMembers(calls: seq<Call>, actorId: string, t: int)
    ensures t in Accepted(calls, actorId)
        <==> exists i: nat :: i < |calls| && AcceptedAt(calls, actorId, i) && calls[i].now == t
  {
    hide Fresh, After, Admits, AcceptedAt;
    if calls != [] {
      var n := |calls| - 1;
      var front, c := calls[..n], calls[n];
      assert calls == front + [c];
      AcceptedMembers(front, actorId, t);
      AcceptedLast(calls, actorId);
      forall i: nat | i < n
        ensures AcceptedAt(calls, actorId, i) <==> AcceptedAt(front, actorId, i)
      {
        AcceptedAtPrefix(front, c, actorId, i);
      }
      if t in Accepted(front, actorId) {
        var i: nat :| i < |front| && AcceptedAt(front, actorId, i) && front[i].now == t;
        assert AcceptedAt(calls, actorId, i) && calls[i].now == t;
      }
    }
  }

  lemma AcceptedLast(calls: seq<Call>, actorId: string)
    requires calls != []
    ensures var n := |calls| - 1;
            Accepted(calls, actorId)
            == if AcceptedAt(calls, actorId, n) then Accepted(calls[..n], actorId) + [calls[n].now]
              else Accepted(calls[..n], actorId)
  {
  }

  /** One more call forgets what its reading forgets, if it is the actor's own. */
  lemma ForgottenNext(calls: seq<Call>, c: Call, actorId: string, now: int)
    ensures Forgotten(calls + [c], actorId, now)
       <==> Forgotten(calls, actorId, now) || (c.actorId == actorId && Forgets(Accepted(calls, actorId), c.now, now))
  {
    hide AcceptedAt, Accepted;
    var more, n := calls + [c], |calls|;
    forall i: nat, j: nat | i < n && j < n
      ensures ForgottenBy(more, actorId, now, i, j) <==> ForgottenBy(calls, actorId, now, i, j)
    {
      AcceptedAtPrefix(calls, c, actorId, i);
    }
    if Forgotten(more, actorId, now) {
      var i: nat, j: nat :| i < |more| && j < |more| && ForgottenBy(more, actorId, now, i, j);
      if j == n {
        AcceptedAtPrefix(calls, c, actorId, i);
        AcceptedMembers(calls, actorId, calls[i].now);
      } else {
        assert ForgottenBy(calls, actorId, now, i, j);
      }
    }
    if Forgotten(calls, actorId, now) {
      var i: nat, j: nat :| i < |calls| && j < |calls| && ForgottenBy(calls, actorId, now, i, j);
      assert ForgottenBy(more, actorId, now, i, j);
    }
    if c.actorId == actorId && Forgets(Accepted(calls, actorId), c.now, now) {
      var t :| t in Accepted(calls, actorId) && c.now - t >= WINDOW_MS && now - t < WINDOW_MS;
      AcceptedMembers(calls, actorId, t);
      var i: nat :| i < |calls| && AcceptedAt(calls, actorId, i) && calls[i].now == t;
      AcceptedAtPrefix(calls, c, actorId, i);
      assert ForgottenBy(more, actorId, now, i, n);
    }
  }

  /** Pruning at `early` first loses exactly the times that are fresh at `now` again. */
  lemma {:induction false} FreshTwice(times: seq<int>, early: int, now: int)
    ensures |Fresh(Fresh(times, early), now)| <= |Fresh(times, now)|
    ensures if Forgets(times, early, now) then |Fresh(Fresh(times, early), now)| < |Fresh(times, now)|
            else Fresh(Fresh(times, early), now) == Fresh(times, now)
  {
    if times != [] {
      var n := |times| - 1;
      var front, t := times[..n], times[n];
      assert times == front + [t];
      FreshTwice(front, early, now);
      ForgetsNext(front, t, early, now);
      FreshNext(Fresh(front, early), t, now);
    }
  }

  lemma ForgetsNext(times: seq<int>, t: int, late: int, now: int)
    ensures Forgets(times + [t], late, now)
        <==> Forgets(times, late, now) || (late - t >= WINDOW_MS && now - t < WINDOW_MS)
  {
    if Forgets(times, late, now) {
      var x :| x in times && late - x >= WINDOW_MS && now - x < WINDOW_MS;
      assert x in times + [t];
    }
    assert t in times + [t];
  }

  /** What the actor's bucket and its whole history keep at `now`, when the clock did whatever it did. */
  lemma {:induction false} BucketAgainstHistory(calls: seq<Call>, actorId: string, now: int)
    ensures var kept, all := Fresh(BucketOf(After(calls), actorId), now), Fresh(Accepted(calls, actorId), now);
            |kept| <= |all| && (if Forgotten(calls, actorId, now) then |kept| < |all| else kept == all)
  {
    hide Fresh, After, Accepted, BucketOf, Forgotten, Forgets;
    if calls == [] {
      NothingAccepted(actorId);
      NothingForgotten(actorId, now);
    } else {
      var n := |calls| - 1;
      var before, c := calls[..n], calls[n];
      assert calls == before + [c];
      BucketAgainstHistory(before, actorId, now);
      BucketNext(before, c, actorId);
      ForgottenNext(before, c, actorId, now);
      if c.actorId == actorId {
        OwnCall(before, c, now);
      }
    }
  }

  lemma NothingForgotten(actorId: string, now: int)
    ensures !Forgotten([], actorId, now)
  {
  }

  lemma OwnCall(before: seq<Call>, c: Call, now: int)
    requires var kept, all := Fresh(BucketOf(After(before), c.actorId), now), Fresh(Accepted(before, c.actorId), now);
             |kept| <= |all| && (if Forgotten(before, c.actorId, now) then |kept| < |all| else kept == all)
    ensures var kept := Fresh(BucketOf(After(before + [c]), c.actorId), now);
            var all := Fresh(Accepted(before + [c], c.actorId), now);
            |kept| <= |all| && (if Forgotten(before + [c], c.actorId, now) then |kept| < |all| else kept == all)
  {
    hide Fresh, After, Accepted, BucketOf, Forgotten;
    var bucket, all := BucketOf(After(before), c.actorId), Accepted(before, c.actorId);
    BucketNext(before, c, c.actorId);
    ForgottenNext(before, c, c.actorId, now);
    FreshTwice(bucket, c.now, now);
    FreshNext(Fresh(bucket, c.now), c.now, now);
    FreshNext(all, c.now, now);
    SameForgets(before, c, now);
  }

  /** While nothing is forgotten, the bucket and the history forget the same. */
  lemma SameForgets(before: seq<Call>, c: Call, now: int)
    ensures Forgets(BucketOf(After(before), c.actorId), c.now, now) ==> Forgets(Accepted(before, c.actorId), c.now, now)
    ensures Fresh(BucketOf(After(before), c.actorId), now) == Fresh(Accepted(before, c.actorId), now)
            && Forgets(Accepted(before, c.actorId), c.now, now)
            ==> Forgets(BucketOf(After(before), c.actorId), c.now, now)
  {
    hide Fresh, After, Accepted, BucketOf;
    BucketIsAccepted(before, c.actorId);
    FreshMembers(BucketOf(After(before), c.actorId), now);
    FreshMembers(Accepted(before, c.actorId), now);
  }

  /**
   The pruned bucket keeps at `now` what the whole history would, exactly when no accepted hit was
   followed by a reading at least 120 seconds later while `now` is again less than 120 seconds after it.
   */
  lemma PruningLosesNothingExactly(calls: seq<Call>, actorId: string, now: int)
    ensures Fresh(BucketOf(After(calls), actorId), now) == Fresh(Accepted(calls, actorId), now)
       <==> !Forgotten(calls, actorId, now)
  {
    hide Fresh, After, Accepted, BucketOf, Forgotten;
    BucketAgainstHistory(calls, actorId, now);
  }

  // ---------------------------------------------------------------- windows

  /** No call of the actor counts a hit that an earlier call of the actor pruned. */
  predicate NeverForgets(calls: seq<Call>, actorId: string) {
    forall n: nat :: n < |calls| && calls[n].actorId == actorId ==> !Forgotten(calls[..n], actorId, calls[n].now)
  }

  /** The actor's own readings never step back; other actors' may. */
  predicate NonDecreasing(calls: seq<Call>, actorId: string) {
    forall i, j :: 0 <= i < j < |calls| && calls[i].actorId == calls[j].actorId == actorId ==>
      calls[i].now <= calls[j].now
  }

  lemma NonDecreasingNeverForgets(calls: seq<Call>, actorId: string)
    requires NonDecreasing(calls, actorId)
    ensures NeverForgets(calls, actorId)
  {
    hide AcceptedAt;
    forall n: nat | n < |calls| && calls[n].actorId == actorId
      ensures !Forgotten(calls[..n], actorId, calls[n].now)
    {
      forall i: nat, j: nat | i < n && j < n
        ensures !ForgottenBy(calls[..n], actorId, calls[n].now, i, j)
      {
        assert calls[..n][i] == calls[i] && calls[..n][j] == calls[j];
        assert calls[j].actorId == actorId ==> calls[j].now <= calls[n].now;
      }
    }
  }

  /** How many of the times lie in [from, from + 120 s). */
  function InWindow(times: seq<int>, from: int): nat {
    if times == [] then 0
    else InWindow(times[..|times| - 1], from) + if from <= times[|times| - 1] < from + WINDOW_MS then 1 else 0
  }

  lemma InWindowNext(times: seq<int>, t: int, from: int)
    ensures InWindow(times + [t], from) == InWindow(times, from) + if from <= t < from + WINDOW_MS then 1 else 0
  {
    assert (times + [t])[..|times|] == times;
  }

  /** Times that share a window with `now` are fresh at `now`. */
  lemma {:induction false} WindowIsFresh(times: seq<int>, from: int, now: int)
    requires from <= now < from + WINDOW_MS
    ensures InWindow(times, from) <= |Fresh(times, now)|
  {
    if times != [] {
      WindowIsFresh(times[..|times| - 1], from, now);
    }
  }

  /** One more call, when its reading forgets nothing. */
  lemma WindowStep(before: seq<Call>, c: Call, actorId: string, from: int)
    requires c.actorId == actorId ==> !Forgotten(before, actorId, c.now)
    requires InWindow(Accepted(before, actorId), from) <= MAX_HITS
    ensures InWindow(Accepted(before + [c], actorId), from) <= MAX_HITS
  {
    hide Fresh, After, Accepted, BucketOf, Forgotten, InWindow;
    BucketNext(before, c, actorId);
    if c.actorId == actorId {
      PruningLosesNothingExactly(before, actorId, c.now);
      InWindowNext(Accepted(before, actorId), c.now, from);
      if from <= c.now < from + WINDOW_MS {
        WindowIsFresh(Accepted(before, actorId), from, c.now);
      }
    }
  }

  lemma PrefixNeverForgets(calls: seq<Call>, actorId: string)
    requires calls != [] && NeverForgets(calls, actorId)
    ensures NeverForgets(calls[..|calls| - 1], actorId)
  {
    hide Forgotten;
    var front := calls[..|calls| - 1];
    forall n: nat | n < |front| && front[n].actorId == actorId
      ensures !Forgotten(front[..n], actorId, front[n].now)
    {
      assert front[..n] == calls[..n] && front[n] == calls[n];
    }
  }

  /** While nothing is forgotten, no half-open window of 120 seconds holds more than five accepted refreshes of
     an actor. */
  lemma {:induction false} AtMostFivePerWindow(calls: seq<Call>, actorId: string, from: int)
    requires NeverForgets(calls, actorId)
    ensures InWindow(Accepted(calls, actorId), from) <= MAX_HITS
  {
    hide Forgotten, After, Admits;
    if calls != [] {
      var n := |calls| - 1;
      assert calls == calls[..n] + [calls[n]];
      PrefixNeverForgets(calls, actorId);
      AtMostFivePerWindow(calls[..n], actorId, from);
      hide Accepted, InWindow;
      WindowStep(calls[..n], calls[n], actorId, from);
    }
  }

  /** In particular when the actor's own readings never step back. */
  lemma AtMostFiveOnForwardClock(calls: seq<Call>, actorId: string, from: int)
    requires NonDecreasing(calls, actorId)
    ensures InWindow(Accepted(calls, actorId), from) <= MAX_HITS
  {
    hide NonDecreasing, NeverForgets, Accepted, InWindow;
    NonDecreasingNeverForgets(calls, actorId);
    AtMostFivePerWindow(calls, actorId, from);
  }

  /** What is fresh, when no time lies ahead of `now`, is what lies in the 120 seconds up to `now`. */
  lemma {:induction false} FreshIsWindow(times: seq<int>, now: int)
    requires forall i :: 0 <= i < |times| ==> times[i] <= now
    ensures |Fresh(times, now)| == InWindow(times, now - WINDOW_MS + 1)
  {
    if times != [] {
      FreshIsWindow(times[..|times| - 1], now);
    }
  }

  lemma AcceptedTimes(calls: seq<Call>, actorId: string, now: int)
    requires forall i :: 0 <= i < |calls| && calls[i].actorId == actorId ==> calls[i].now <= now
    ensures forall i :: 0 <= i < |Accepted(calls, actorId)| ==> Accepted(calls, actorId)[i] <= now
  {
    hide Accepted, Admits;
    forall i | 0 <= i < |Accepted(calls, actorId)|
      ensures Accepted(calls, actorId)[i] <= now
    {
      AcceptedMembers(calls, actorId, Accepted(calls, actorId)[i]);
    }
  }

  /** A call is refused exactly when five of the actor's were accepted in the last 120 seconds. */
  lemma RefusedExactly(calls: seq<Call>, actorId: string, now: int)
    requires NonDecreasing(calls + [Call(actorId, now)], actorId)
    ensures !Admits(After(calls), actorId, now) <==> InWindow(Accepted(calls, actorId), now - WINDOW_MS + 1) == MAX_HITS
  {
    hide Fresh, After, Accepted, Forgotten, BucketOf, NeverForgets, InWindow;
    var more := calls + [Call(actorId, now)];
    OwnPrefix(calls, actorId, now);
    NonDecreasingNeverForgets(more, actorId);
    LastForgetsNothing(calls, actorId, now);
    PruningLosesNothingExactly(calls, actorId, now);
    AcceptedTimes(calls, actorId, now);
    FreshIsWindow(Accepted(calls, actorId), now);
    AtMostFiveOnForwardClock(calls, actorId, now - WINDOW_MS + 1);
  }

  lemma OwnPrefix(calls: seq<Call>, actorId: string, now: int)
    requires NonDecreasing(calls + [Call(actorId, now)], actorId)
    ensures NonDecreasing(calls, actorId)
    ensures forall i :: 0 <= i < |calls| && calls[i].actorId == actorId ==> calls[i].now <= now
  {
    var more := calls + [Call(actorId, now)];
    assert more[|calls|] == Call(actorId, now);
    assert forall i :: 0 <= i < |calls| ==> more[i] == calls[i];
  }

  lemma LastForgetsNothing(calls: seq<Call>, actorId: string, now: int)
    requires NeverForgets(calls + [Call(actorId, now)], actorId)
    ensures !Forgotten(calls, actorId, now)
  {
    hide Forgotten;
    var more := calls + [Call(actorId, now)];
    assert more[..|calls|] == calls && more[|calls|] == Call(actorId, now);
  }

  // ---------------------------------------------------------------- a clock that steps back

  /** `k` calls at time 0. */
  function Burst(k: nat): seq<Call> {
    if k == 0 then [] else Burst(k - 1) + [Call("a", 0)]
  }

  lemma {:induction false} BurstAccepted(k: nat)
    requires k <= MAX_HITS
    ensures |BucketOf(After(Burst(k)), "a")| == k && InWindow(Accepted(Burst(k), "a"), 0) == k
    ensures forall i :: 0 <= i < k ==> BucketOf(After(Burst(k)), "a")[i] == 0
  {
    hide Fresh, After, Accepted, BucketOf, InWindow;
    if k == 0 {
      NothingAccepted("a");
      NoneInWindow(0);
    } else {
      BurstAccepted(k - 1);
      FreshAll(BucketOf(After(Burst(k - 1)), "a"), 0);
      BucketNext(Burst(k - 1), Call("a", 0), "a");
      InWindowNext(Accepted(Burst(k - 1), "a"), 0, 0);
    }
  }

  lemma NoneInWindow(from: int)
    ensures InWindow([], from) == 0
  {
  }

  lemma {:induction false} FreshAll(times: seq<int>, now: int)
    requires forall i :: 0 <= i < |times| ==> now - times[i] < WINDOW_MS
    ensures Fresh(times, now) == times
  {
    if times != [] {
      var n := |times| - 1;
      FreshAll(times[..n], now);
      assert now - times[n] < WINDOW_MS;
      assert times == times[..n] + [times[n]];
    }
  }

  lemma {:induction false} FreshNone(times: seq<int>, now: int)
    requires forall i :: 0 <= i < |times| ==> now - times[i] >= WINDOW_MS
    ensures Fresh(times, now) == []
  {
    if times != [] {
      FreshNone(times[..|times| - 1], now);
    }
  }

  /** Five calls at 0 s, one at 200 s, and one at 0.1 s: the last is accepted, the sixth of one window. */
  lemma BackwardClockOverruns()
    ensures InWindow(Accepted(Burst(5) + [Call("a", 200000)] + [Call("a", 100)], "a"), 0) > MAX_HITS
    ensures Forgotten(Burst(5) + [Call("a", 200000)], "a", 100)
  {
    hide Fresh, After, Accepted, BucketOf, InWindow, Burst, Forgotten;
    var five := Burst(5);
    BurstAccepted(5);
    FreshNone(BucketOf(After(five), "a"), 200000);
    BucketNext(five, Call("a", 200000), "a");
    FreshAll([200000], 100);
    assert [] + [200000] == [200000];
    BucketNext(five + [Call("a", 200000)], Call("a", 100), "a");
    InWindowNext(Accepted(five, "a"), 200000, 0);
    InWindowNext(Accepted(five + [Call("a", 200000)], "a"), 100, 0);
    if !Forgotten(five + [Call("a", 200000)], "a", 100) {
      PruningLosesNothingExactly(five + [Call("a", 200000)], "a", 100);
      WindowIsFresh(Accepted(five + [Call("a", 200000)], "a"), 0, 100);
    }
  }

  // ---------------------------------------------------------------- the rule, on the calls alone

  /** `accepted` marks the calls that a limiter starting empty lets through. */
  predicate IsLog(calls: seq<Call>, accepted: seq<bool>) {
    && |accepted| == |calls|
    && forall i :: 0 <= i < |calls| ==> accepted[i] == Admits(After(calls[..i]), calls[i].actorId, calls[i].now)
  }

  /** The accepted calls of an actor, among the first `n`, less than 120 seconds before `now`. */
  function Recent(calls: seq<Call>, accepted: seq<bool>, n: nat, actorId: string, now: int): set<int>
    requires n <= |calls| == |accepted|
  {
    set i | 0 <= i < n && accepted[i] && calls[i].actorId == actorId && now - calls[i].now < 120000
  }

  lemma {:induction false} FreshCounts(calls: seq<Call>, accepted: seq<bool>, n: nat, actorId: string, now: int)
    requires IsLog(calls, accepted) && n <= |calls|
    ensures |Fresh(Accepted(calls[..n], actorId), now)| == |Recent(calls, accepted, n, actorId, now)|
  {
    hide After, Admits;
    if n == 0 {
      assert Recent(calls, accepted, 0, actorId, now) == {};
    } else {
      var m := n - 1;
      assert calls[..n][..m] == calls[..m] && calls[..n][m] == calls[m];
      FreshCounts(calls, accepted, m, actorId, now);
      RecentNext(calls, accepted, m, actorId, now);
      FreshNext(Accepted(calls[..m], actorId), calls[m].now, now);
    }
  }

  lemma RecentGrows(calls: seq<Call>, accepted: seq<bool>, m: nat, actorId: string, now: int)
    requires m < |calls| == |accepted|
    ensures m !in Recent(calls, accepted, m, actorId, now)
    ensures Recent(calls, accepted, m + 1, actorId, now)
        == Recent(calls, accepted, m, actorId, now)
           + if accepted[m] && calls[m].actorId == actorId && now - calls[m].now < 120000 then {m} else {}
  {
  }

  lemma RecentNext(calls: seq<Call>, accepted: seq<bool>, m: nat, actorId: string, now: int)
    requires m < |calls| == |accepted|
    ensures |Recent(calls, accepted, m + 1, actorId, now)|
        == |Recent(calls, accepted, m, actorId, now)|
           + if accepted[m] && calls[m].actorId == actorId && now - calls[m].now < 120000 then 1 else 0
  {
    RecentGrows(calls, accepted, m, actorId, now);
    hide Recent;
  }

  /**
   On clocks that never step back for their actor, a call is accepted exactly when fewer than five of the
   actor's earlier accepted calls are less than 120 seconds old.
   */
  lemma AcceptedExactly(calls: seq<Call>, accepted: seq<bool>, n: nat)
    requires IsLog(calls, accepted) && n < |calls|
    requires forall i, j :: 0 <= i < j <= n && calls[i].actorId == calls[j].actorId == calls[n].actorId ==>
               calls[i].now <= calls[j].now
    ensures accepted[n] <==> |Recent(calls, accepted, n, calls[n].actorId, calls[n].now)| < 5
  {
    hide After, Fresh, Accepted, Forgotten, BucketOf;
    var c := calls[n];
    var more := calls[..n] + [c];
    assert more == calls[..n + 1];
    NonDecreasingNeverForgets(more, c.actorId);
    LastForgetsNothing(calls[..n], c.actorId, c.now);
    PruningLosesNothingExactly(calls[..n], c.actorId, c.now);
    FreshCounts(calls, accepted, n, c.actorId, c.now);
  }

  /** The calls of an actor that were accepted in [from, from + 120 s). */
  function AcceptedIn(calls: seq<Call>, accepted: seq<bool>, actorId: string, from: int): set<int>
    requires |calls| == |accepted|
  {
    set i | 0 <= i < |calls| && accepted[i] && calls[i].actorId == actorId && from <= calls[i].now < from + 120000
  }

  /** So no half-open window of 120 seconds holds more than five. */
  lemma {:induction false} FivePerWindow(calls: seq<Call>, accepted: seq<bool>, actorId: string, from: int)
    requires IsLog(calls, accepted)
    requires forall i, j :: 0 <= i < j < |calls| && calls[i].actorId == calls[j].actorId == actorId ==>
               calls[i].now <= calls[j].now
    ensures |AcceptedIn(calls, accepted, actorId, from)| <= 5
  {
    hide After, Admits;
    if calls == [] {
      assert AcceptedIn(calls, accepted, actorId, from) == {};
    } else {
      var n := |calls| - 1;
      var c := calls[n];
      LogPrefix(calls, accepted);
      FivePerWindow(calls[..n], accepted[..n], actorId, from);
      WindowGrows(calls, accepted, actorId, from);
      hide AcceptedIn;
      if accepted[n] && c.actorId == actorId && from <= c.now < from + 120000 {
        AcceptedExactly(calls, accepted, n);
        Bounded(AcceptedIn(calls[..n], accepted[..n], actorId, from), Recent(calls, accepted, n, actorId, c.now));
      }
    }
  }

  /** The last call joins the window if it lies in it, and then all that were there before are recent. */
  lemma WindowGrows(calls: seq<Call>, accepted: seq<bool>, actorId: string, from: int)
    requires |accepted| == |calls| && calls != []
    ensures var n := |calls| - 1;
            var c, before := calls[n], AcceptedIn(calls[..n], accepted[..n], actorId, from);
            && n !in before
            && (if accepted[n] && c.actorId == actorId && from <= c.now < from + 120000 then
                  && AcceptedIn(calls, accepted, actorId, from) == before + {n}
                  && before <= Recent(calls, accepted, n, actorId, c.now)
                else AcceptedIn(calls, accepted, actorId, from) == before)
  {
  }

  lemma {:induction false} Bounded(a: set<int>, b: set<int>)
    requires a <= b
    ensures |a| <= |b|
  {
    assert b == a + (b - a);
  }

  lemma LogPrefix(calls: seq<Call>, accepted: seq<bool>)
    requires IsLog(calls, accepted) && calls != []
    ensures IsLog(calls[..|calls| - 1], accepted[..|calls| - 1])
  {
    hide After, Admits;
    var n := |calls| - 1;
    forall i | 0 <= i < n
      ensures calls[..n][..i] == calls[..i]
    {
    }
  }
}
