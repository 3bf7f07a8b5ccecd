/**
 * The sliding-window rate limiter both back-ends share: a table from client id to the
 * timestamps (in seconds) of that client's admitted requests, pruned to the last hour on
 * every check.
 */
module SlidingWindow {

  /** Requests admitted per client and window. */
  const RATE_LIMIT: nat := 10
  /** The window, one hour in seconds. */
  const RATE_LIMIT_WINDOW: int := 3600

  predicate Sorted(ts: seq<int>) {
    forall i, j :: 0 <= i < j < |ts| ==> ts[i] <= ts[j]
  }

  predicate NoLaterThan(ts: seq<int>, now: int) {
    forall t :: t in ts ==> t <= now
  }

  /** `[t for t in ts if now - t < RATE_LIMIT_WINDOW]`. */
  function Pruned(ts: seq<int>, now: int): (r: seq<int>)
    ensures |r| <= |ts|
  {
    if ts == [] then []
    else if now - ts[0] < RATE_LIMIT_WINDOW then [ts[0]] + Pruned(ts[1..], now)
    else Pruned(ts[1..], now)
  }

  /** The check admits a request when fewer than RATE_LIMIT requests remain in the window. */
  predicate Admits(ts: seq<int>, now: int)
    ensures |ts| < RATE_LIMIT ==> Admits(ts, now)
  {
    |Pruned(ts, now)| < RATE_LIMIT
  }

  /** A client's list after one check at `now`: pruned, then extended by `now` if admitted. */
  function After(ts: seq<int>, now: int): (r: seq<int>)
    ensures |r| <= |ts| + 1
    ensures Admits(ts, now) ==> |r| <= RATE_LIMIT && r != [] && r[|r| - 1] == now
  {
    if Admits(ts, now) then Pruned(ts, now) + [now] else Pruned(ts, now)
  }

  /** Python's `min(ts)`. */
  function Min(ts: seq<int>): (m: int)
    requires ts != []
    ensures m in ts
    ensures forall t :: t in ts ==> m <= t
  {
    if |ts| == 1 then ts[0]
    else
      var rest := Min(ts[1..]);
      assert ts == [ts[0]] + ts[1..];
      if ts[0] <= rest then ts[0] else rest
  }

  /** Pruning keeps exactly the timestamps less than one window old. */
  lemma {:induction false} PrunedMembers(ts: seq<int>, now: int)
    ensures forall t :: t in Pruned(ts, now) <==> t in ts && now - t < RATE_LIMIT_WINDOW
  {
    if ts != [] {
      PrunedMembers(ts[1..], now);
      assert ts == [ts[0]] + ts[1..];
    }
  }

  /** Pruning keeps every copy of a timestamp inside the window and none outside it. */
  lemma {:induction false} PrunedCounts(ts: seq<int>, now: int)
    ensures forall t :: multiset(Pruned(ts, now))[t] == if now - t < RATE_LIMIT_WINDOW then multiset(ts)[t] else 0
  {
    if ts != [] {
      PrunedCounts(ts[1..], now);
      assert ts == [ts[0]] + ts[1..];
    }
  }

  /** Pruning keeps the order of what it keeps. */
  lemma {:induction false} PrunedSorted(ts: seq<int>, now: int)
    requires Sorted(ts)
    ensures Sorted(Pruned(ts, now))
  {
    if ts != [] {
      PrunedSorted(ts[1..], now);
      PrunedMembers(ts[1..], now);
      var rest := Pruned(ts[1..], now);
      if now - ts[0] < RATE_LIMIT_WINDOW {
        forall j | 0 <= j < |rest| ensures ts[0] <= rest[j] {
          assert rest[j] in rest;
          var k :| 0 <= k < |ts| - 1 && ts[1..][k] == rest[j];
          assert ts[k + 1] == rest[j];
        }
        SortedCons(ts[0], rest);
      }
    }
  }

  lemma SortedCons(x: int, s: seq<int>)
    requires Sorted(s) && forall j :: 0 <= j < |s| ==> x <= s[j]
    ensures Sorted([x] + s)
  {
    forall i, j | 0 <= i < j < |s| + 1 ensures ([x] + s)[i] <= ([x] + s)[j] {
      if i > 0 {
        assert ([x] + s)[i] == s[i - 1];
      }
      assert ([x] + s)[j] == s[j - 1];
    }
  }

  lemma SortedSnoc(s: seq<int>, x: int)
    requires Sorted(s) && NoLaterThan(s, x)
    ensures Sorted(s + [x]) && NoLaterThan(s + [x], x)
  {
    forall i, j | 0 <= i < j < |s| + 1 ensures (s + [x])[i] <= (s + [x])[j] {
      assert (s + [x])[i] == s[i] && s[i] in s;
    }
  }

  /** Pruning drops nothing exactly when every timestamp is inside the window. */
  lemma {:induction false} PrunedAll(ts: seq<int>, now: int)
    ensures Pruned(ts, now) == ts <==> forall t :: t in ts ==> now - t < RATE_LIMIT_WINDOW
  {
    if ts != [] {
      PrunedAll(ts[1..], now);
      PrunedMembers(ts[1..], now);
      assert ts == [ts[0]] + ts[1..];
      if now - ts[0] >= RATE_LIMIT_WINDOW {
        assert |Pruned(ts, now)| < |ts| by {
          assert |Pruned(ts[1..], now)| <= |ts[1..]|;
        }
        assert ts[0] in ts;
      } else {
        assert Pruned(ts, now) == [ts[0]] + Pruned(ts[1..], now);
        assert (Pruned(ts, now) == ts) == (Pruned(ts[1..], now) == ts[1..]);
        assert forall t :: t in ts <==> t == ts[0] || t in ts[1..];
        assert (forall t :: t in ts ==> now - t < RATE_LIMIT_WINDOW)
          == (forall t :: t in ts[1..] ==> now - t < RATE_LIMIT_WINDOW);
      }
    }
  }

  /** A list pruned at `now` and pruned again later is the list pruned later: an entry never re-enters the window. */
  lemma {:induction false} PrunedTwice(ts: seq<int>, now: int, later: int)
    requires now <= later
    ensures Pruned(Pruned(ts, now), later) == Pruned(ts, later)
  {
    if ts != [] {
      PrunedTwice(ts[1..], now, later);
    }
  }

  /** Every timestamp left after a check is inside the window; the newest may be `now` itself. */
  lemma AfterInWindow(ts: seq<int>, now: int)
    ensures forall t :: t in After(ts, now) ==> now - t < RATE_LIMIT_WINDOW
  {
    PrunedMembers(ts, now);
  }

  /** A check never lets a list grow past RATE_LIMIT; a refused one drops nothing from a list within the bound. */
  lemma AfterBounded(ts: seq<int>, now: int)
    requires |ts| <= RATE_LIMIT
    ensures |After(ts, now)| <= RATE_LIMIT
    ensures !Admits(ts, now) ==> After(ts, now) == ts && |ts| == RATE_LIMIT
  {
    if !Admits(ts, now) {
      PrunedAll(ts, now);
      if Pruned(ts, now) != ts {
        var t :| t in ts && now - t >= RATE_LIMIT_WINDOW;
        PrunedMembers(ts, now);
        PrunedSubsequenceShorter(ts, now, t);
      }
    }
  }

  /** When something is dropped, the pruned list is strictly shorter. */
  lemma {:induction false} PrunedSubsequenceShorter(ts: seq<int>, now: int, t: int)
    requires t in ts && now - t >= RATE_LIMIT_WINDOW
    ensures |Pruned(ts, now)| < |ts|
  {
    if ts[0] != t {
      assert t in ts[1..];
      PrunedSubsequenceShorter(ts[1..], now, t);
    }
  }

  /** A check at a time no earlier than every stored timestamp keeps the list in arrival order. */
  lemma AfterChronological(ts: seq<int>, now: int)
    requires Sorted(ts) && NoLaterThan(ts, now)
    ensures Sorted(After(ts, now)) && NoLaterThan(After(ts, now), now)
  {
    PrunedSorted(ts, now);
    PrunedMembers(ts, now);
    SortedSnoc(Pruned(ts, now), now);
  }

  /** In a list kept in arrival order the oldest request is the first: `min(ts) == ts[0]`. */
  lemma OldestFirst(ts: seq<int>)
    requires ts != [] && Sorted(ts)
    ensures Min(ts) == ts[0]
  {
    var m := Min(ts);
    var k :| 0 <= k < |ts| && ts[k] == m;
  }

  /** An admitted call: the pruned list plus `now`, and `RATE_LIMIT - len` lies in [0, RATE_LIMIT - 1]. */
  lemma AdmittedCall(ts: seq<int>, now: int)
    requires Admits(ts, now)
    ensures After(ts, now) == Pruned(ts, now) + [now] && After(ts, now)[|After(ts, now)| - 1] == now
    ensures 0 <= RATE_LIMIT - |After(ts, now)| <= RATE_LIMIT - 1
  {
  }

  /** A refused call: the wait until the oldest request leaves the window is positive, and at most one window
      when no stored timestamp lies in the future. */
  lemma RefusedWait(ts: seq<int>, now: int)
    requires !Admits(ts, now)
    ensures Pruned(ts, now) != [] && After(ts, now) == Pruned(ts, now)
    ensures 0 < Min(Pruned(ts, now)) + RATE_LIMIT_WINDOW - now
    ensures NoLaterThan(ts, now) ==> Min(Pruned(ts, now)) + RATE_LIMIT_WINDOW - now <= RATE_LIMIT_WINDOW
  {
    PrunedMembers(ts, now);
  }

  /** One check per entry of `times`, in order, starting from the list `ts`. */
  function Replay(ts: seq<int>, times: seq<int>): seq<int>
    decreases |times|
  {
    if times == [] then ts else Replay(After(ts, times[0]), times[1..])
  }

  /** Up to RATE_LIMIT requests in arrival order, all within one window of the first, are all admitted. */
  lemma {:induction false} BurstAdmitted(ts: seq<int>, times: seq<int>)
    requires Sorted(ts + times) && |ts + times| <= RATE_LIMIT
    requires forall t :: t in ts + times ==> (ts + times)[|ts + times| - 1] - t < RATE_LIMIT_WINDOW
    ensures Replay(ts, times) == ts + times
    decreases |times|
  {
    if times != [] {
      var all := ts + times;
      var now := times[0];
      forall t | t in ts ensures now - t < RATE_LIMIT_WINDOW {
        var i :| 0 <= i < |ts| && ts[i] == t;
        assert all[i] == t && all[|ts|] == now;
        assert t in all;
        assert all[|all| - 1] - t < RATE_LIMIT_WINDOW;
        assert now <= all[|all| - 1] by {
          if |ts| < |all| - 1 {
            assert all[|ts|] <= all[|all| - 1];
          }
        }
      }
      PrunedAll(ts, now);
      assert After(ts, now) == ts + [now];
      assert ts + times == (ts + [now]) + times[1..];
      BurstAdmitted(ts + [now], times[1..]);
    }
  }

  /** Once RATE_LIMIT requests are inside the window, the next request is refused. */
  lemma BurstRefused(ts: seq<int>, now: int)
    requires |ts| == RATE_LIMIT && forall t :: t in ts ==> now - t < RATE_LIMIT_WINDOW
    ensures !Admits(ts, now)
  {
    PrunedAll(ts, now);
  }

  /** When every stored request is at least one window old, the list empties and the request is admitted. */
  lemma {:induction false} WindowElapsed(ts: seq<int>, now: int)
    requires forall t :: t in ts ==> now - t >= RATE_LIMIT_WINDOW
    ensures Pruned(ts, now) == [] && Admits(ts, now) && After(ts, now) == [now]
  {
    if ts != [] {
      assert ts[0] in ts;
      assert forall t :: t in ts[1..] ==> t in ts;
      WindowElapsed(ts[1..], now);
    }
  }

  /**
   * `request_tracker`: a `defaultdict(list)` from client id to the timestamps of its admitted
   * requests. The table is one object, updated in place by the checks of either back-end.
   */
  class RequestTracker {
    var table: map<string, seq<int>>

    constructor ()
      ensures table == map[]
    {
      table := map[];
    }

    /** `request_tracker[c]` read through the defaultdict: an unknown id reads as the empty list. */
    function Requests(c: string): seq<int>
      reads this
    {
      if c in table then table[c] else []
    }

    /** No client has more than RATE_LIMIT timestamps on record. */
    ghost predicate Valid()
      reads this
    {
      forall c :: c in table ==> |table[c]| <= RATE_LIMIT
    }

    /** Every list is in arrival order and holds no timestamp later than `now`. */
    ghost predicate Chronological(now: int)
      reads this
    {
      forall c :: c in table ==> Sorted(table[c]) && NoLaterThan(table[c], now)
    }

    /** `request_tracker[c] = [t for t in request_tracker[c] if now - t < RATE_LIMIT_WINDOW]`. */
    method Prune(client: string, now: int)
      modifies this
      ensures table == old(table)[client := Pruned(old(Requests(client)), now)]
    {
      table := table[client := Pruned(Requests(client), now)];
    }

    /** `request_tracker[c].append(now)`. */
    method Append(client: string, now: int)
      modifies this
      ensures table == old(table)[client := old(Requests(client)) + [now]]
    {
      table := table[client := Requests(client) + [now]];
    }
  }
}
