/**
 * The per-key sliding-window rate limiter of the MCP server
 * (class RateLimiter in src/server/server.py).
 *
 * The wall clock is replaced by an explicit integer argument `now`
 * (seconds); every other piece of state is the limiter's own: the budget
 * per minute and the map from API key to the timestamps still in the window.
 * The key type is a parameter; the server instantiates it with strings.
 */
module RateLimit {

  /** Budget of a limiter built without an argument. */
  const DefaultRequestsPerMinute: int := 60

  /** Length of the sliding window, in seconds. */
  const WindowSeconds: int := 60

  /** The timestamps of `ts` strictly later than `cutoff`, in their original order. */
  function Prune(ts: seq<int>, cutoff: int): (r: seq<int>)
    ensures |r| <= |ts|
    ensures forall t :: t in r ==> t in ts && cutoff < t
    ensures forall t :: t in ts && cutoff < t ==> t in r
  {
    if ts == [] then []
    else if cutoff < ts[0] then [ts[0]] + Prune(ts[1..], cutoff)
    else Prune(ts[1..], cutoff)
  }

  /** Pruning works element by element: it keeps the relative order of what it keeps. */
  lemma {:induction false} PruneAppend(a: seq<int>, b: seq<int>, cutoff: int)
    ensures Prune(a + b, cutoff) == Prune(a, cutoff) + Prune(b, cutoff)
  {
    if a == [] {
      assert a + b == b;
    } else {
      assert (a + b)[0] == a[0];
      assert (a + b)[1..] == a[1..] + b;
      PruneAppend(a[1..], b, cutoff);
    }
  }

  /** Pruning keeps every occurrence of a timestamp after the cutoff and none before it. */
  lemma {:induction false} PruneMultiset(ts: seq<int>, cutoff: int)
    ensures forall t :: multiset(Prune(ts, cutoff))[t] == if cutoff < t then multiset(ts)[t] else 0
  {
    if ts != [] {
      PruneMultiset(ts[1..], cutoff);
      assert ts == [ts[0]] + ts[1..];
    }
  }

  /** Pruning twice is pruning once at the later cutoff. */
  lemma {:induction false} PruneTwice(ts: seq<int>, c1: int, c2: int)
    requires c1 <= c2
    ensures Prune(Prune(ts, c1), c2) == Prune(ts, c2)
  {
    if ts != [] {
      PruneTwice(ts[1..], c1, c2);
    }
  }

  /** Timestamps in chronological (non-decreasing) order. */
  predicate Sorted(ts: seq<int>) {
    forall i, j :: 0 <= i < j < |ts| ==> ts[i] <= ts[j]
  }

  /** Pruning a chronological list leaves it chronological. */
  lemma {:induction false} PruneSorted(ts: seq<int>, cutoff: int)
    requires Sorted(ts)
    ensures Sorted(Prune(ts, cutoff))
  {
    if ts != [] {
      var tail := ts[1..];
      assert Sorted(tail) by {
        forall i, j | 0 <= i < j < |tail| ensures tail[i] <= tail[j] {
          assert tail[i] == ts[i + 1] && tail[j] == ts[j + 1];
        }
      }
      PruneSorted(tail, cutoff);
      var rest := Prune(tail, cutoff);
      if cutoff < ts[0] {
        var r := [ts[0]] + rest;
        forall i, j | 0 <= i < j < |r| ensures r[i] <= r[j] {
          assert r[j] == rest[j - 1] && rest[j - 1] in tail;
          var k :| 0 <= k < |tail| && tail[k] == rest[j - 1];
          assert ts[k + 1] == r[j];
          if i > 0 {
            assert r[i] == rest[i - 1];
          }
        }
      }
    }
  }

  /** The list a per-key map holds for `key`, empty for a key it does not hold. */
  function Lookup<K(==)>(m: map<K, seq<int>>, key: K): seq<int> {
    if key in m then m[key] else []
  }

  /** Each stored window is the admitted log of its key cut at the key's latest cutoff, which lies a full window behind `clock`. */
  ghost predicate WindowsExact<K>(requests: map<K, seq<int>>, admitted: map<K, seq<int>>,
                               cutoffs: map<K, int>, clock: int)
  {
    forall k {:trigger requests[k]} :: k in requests ==>
      && k in cutoffs
      && cutoffs[k] <= clock - WindowSeconds
      && requests[k] == Prune(Lookup(admitted, k), cutoffs[k])
  }

  /** Every admitted log is chronological and lies at or before `clock`. */
  ghost predicate LogsChronological<K>(admitted: map<K, seq<int>>, clock: int) {
    forall k {:trigger admitted[k]} :: k in admitted ==>
      Sorted(admitted[k]) && forall t :: t in admitted[k] ==> t <= clock
  }

  /** A call at a clock no earlier than the last one keeps every window exact. */
  lemma WindowsExactStep<K>(requests: map<K, seq<int>>, admitted: map<K, seq<int>>,
                         cutoffs: map<K, int>, clock: int, key: K, now: int, admit: bool)
    requires WindowsExact(requests, admitted, cutoffs, clock)
    requires admitted.Keys <= requests.Keys
    requires clock <= now
    ensures
      var kept := Prune(Lookup(requests, key), now - WindowSeconds);
      WindowsExact(requests[key := if admit then kept + [now] else kept],
                   if admit then admitted[key := Lookup(admitted, key) + [now]] else admitted,
                   cutoffs[key := now - WindowSeconds], now)
  {
    var cutoff := now - WindowSeconds;
    var h := Lookup(admitted, key);
    var kept := Prune(Lookup(requests, key), cutoff);
    var requests' := requests[key := if admit then kept + [now] else kept];
    var admitted' := if admit then admitted[key := h + [now]] else admitted;
    var cutoffs' := cutoffs[key := cutoff];
    if key in requests {
      PruneTwice(h, cutoffs[key], cutoff);
    }
    assert kept == Prune(h, cutoff);
    if admit {
      PruneAppend(h, [now], cutoff);
    }
    forall k | k in requests'
      ensures k in cutoffs' && cutoffs'[k] <= now - WindowSeconds
      ensures requests'[k] == Prune(Lookup(admitted', k), cutoffs'[k])
    {
      if k != key {
        assert Lookup(admitted', k) == Lookup(admitted, k);
      }
    }
  }

  /** A call at a clock no earlier than the last one keeps every log chronological. */
  lemma LogsChronologicalStep<K>(admitted: map<K, seq<int>>, clock: int, key: K, now: int, admit: bool)
    requires LogsChronological(admitted, clock)
    requires clock <= now
    ensures LogsChronological(if admit then admitted[key := Lookup(admitted, key) + [now]] else admitted, now)
  {
    if admit {
      var h := Lookup(admitted, key);
      var h' := h + [now];
      assert forall t :: t in h ==> t <= clock;
      assert Sorted(h') by {
        forall i, j | 0 <= i < j < |h'| ensures h'[i] <= h'[j] {
          if j < |h| {
            assert h'[i] == h[i] && h'[j] == h[j];
          } else {
            assert h'[i] in h' && h'[j] == now;
          }
        }
      }
    }
  }

  /** The largest size a window can reach under `limit` (a negative budget admits nothing). */
  function Cap(limit: int): nat {
    if limit < 0 then 0 else limit
  }

  /**
   * The limiter's invariant over its state: no window exceeds the budget,
   * only keys that have been called hold a log, and, while the clock has
   * only moved forward, each window is its key's admitted log cut at the
   * latest pruning and every log is chronological.
   */
  ghost predicate Consistent<K>(limit: int, requests: map<K, seq<int>>, admitted: map<K, seq<int>>,
                                cutoffs: map<K, int>, clock: int, started: bool, monotone: bool)
  {
    && (forall k {:trigger requests[k]} :: k in requests ==> |requests[k]| <= Cap(limit))
    && admitted.Keys <= requests.Keys
    && (!started ==> requests == map[])
    && (monotone ==> WindowsExact(requests, admitted, cutoffs, clock))
    && (monotone ==> LogsChronological(admitted, clock))
  }

  /**
   * One call for `key` at `now`, in the order is_rate_limited takes its steps: store the pruned
   * list, then, below the budget, append `now` to it and to the log. The
   * state stays consistent and no other key is touched.
   */
  lemma ConsistentStep<K>(limit: int, requests: map<K, seq<int>>, admitted: map<K, seq<int>>,
                          cutoffs: map<K, int>, clock: int, started: bool, monotone: bool,
                          key: K, now: int)
    requires Consistent(limit, requests, admitted, cutoffs, clock, started, monotone)
    ensures
      var pruned := requests[key := Prune(Lookup(requests, key), now - WindowSeconds)];
      var admit := |pruned[key]| < limit;
      var requests' := if admit then pruned[key := pruned[key] + [now]] else pruned;
      var admitted' := if admit then admitted[key := Lookup(admitted, key) + [now]] else admitted;
      var monotone' := monotone && (!started || clock <= now);
      && Consistent(limit, requests', admitted', cutoffs[key := now - WindowSeconds], now, true, monotone')
      && requests'.Keys == requests.Keys + {key}
      && (forall k :: k != key ==> Lookup(requests', k) == Lookup(requests, k))
      && (forall k :: k != key ==> Lookup(admitted', k) == Lookup(admitted, k))
      && (forall t :: t in requests'[key] ==> now - WindowSeconds < t)
      && (monotone' ==> requests'[key] == Prune(Lookup(admitted', key), now - WindowSeconds))
  {
    var cutoff := now - WindowSeconds;
    var kept := Prune(Lookup(requests, key), cutoff);
    var admit := |kept| < limit;
    var requests' := requests[key := if admit then kept + [now] else kept];
    var admitted' := if admit then admitted[key := Lookup(admitted, key) + [now]] else admitted;
    forall k | k in requests' ensures |requests'[k]| <= Cap(limit) {
      if k != key {
        assert requests'[k] == requests[k];
      }
    }
    if monotone && (!started || clock <= now) {
      var base := if started then clock else now;
      WindowsExactStep(requests, admitted, cutoffs, base, key, now, admit);
      LogsChronologicalStep(admitted, base, key, now, admit);
      assert WindowsExact(requests', admitted', cutoffs[key := cutoff], now);
      assert LogsChronological(admitted', now);
    }
  }

  /**
   * The guarantee the limiter exists for: while the clock has only moved
   * forward, no key has more than the budget of admitted requests in the
   * window that ends at the latest call, and every stored list is in
   * chronological order.
   */
  lemma SlidingWindowBound<K>(limit: int, requests: map<K, seq<int>>, admitted: map<K, seq<int>>,
                              cutoffs: map<K, int>, clock: int, started: bool, key: K)
    requires Consistent(limit, requests, admitted, cutoffs, clock, started, true)
    ensures |Prune(Lookup(admitted, key), clock - WindowSeconds)| <= Cap(limit)
    ensures Sorted(Lookup(requests, key))
  {
    if key in requests {
      var h := Lookup(admitted, key);
      assert requests[key] == Prune(h, cutoffs[key]);
      PruneTwice(h, cutoffs[key], clock - WindowSeconds);
      if key in admitted {
        PruneSorted(h, cutoffs[key]);
      }
    }
  }

  class RateLimiter<K(==)> {
    /** The budget: requests admitted per key within one window. */
    const requestsPerMinute: int
    /** Per API key, the timestamps admitted and not yet pruned. */
    var requests: map<K, seq<int>>

    /** Per API key, every timestamp ever admitted (the log the window is cut from). */
    ghost var admitted: map<K, seq<int>>
    /** Per API key, the cutoff of the latest pruning of its list. */
    ghost var cutoffs: map<K, int>
    /** The clock value of the latest call, if `started`. */
    ghost var lastNow: int
    ghost var started: bool
    /** No call so far has moved the clock backwards. */
    ghost var monotone: bool

    ghost predicate Valid()
      reads this
    {
      Consistent(requestsPerMinute, requests, admitted, cutoffs, lastNow, started, monotone)
    }

    constructor (requestsPerMinute: int)
      ensures Valid()
      ensures this.requestsPerMinute == requestsPerMinute
      ensures requests == map[] && admitted == map[] && !started && monotone
    {
      this.requestsPerMinute := requestsPerMinute;
      requests := map[];
      admitted := map[];
      cutoffs := map[];
      lastNow := 0;
      started := false;
      monotone := true;
    }

    /**
     * Prunes the list of `apiKey` to the last WindowSeconds before `now`;
     * refuses (true) when the pruned list already holds the budget, and
     * otherwise records `now` and admits (false).
     */
    method IsRateLimited(apiKey: K, now: int) returns (limited: bool)
      requires Valid()
      modifies this
      ensures Valid()
      ensures requests.Keys == old(requests.Keys) + {apiKey}
      ensures forall k :: k != apiKey ==> Lookup(requests, k) == Lookup(old(requests), k)
      ensures limited <==> |Prune(Lookup(old(requests), apiKey), now - WindowSeconds)| >= requestsPerMinute
      ensures Lookup(requests, apiKey) ==
                var kept := Prune(Lookup(old(requests), apiKey), now - WindowSeconds);
                if limited then kept else kept + [now]
      ensures forall t :: t in Lookup(requests, apiKey) ==> now - WindowSeconds < t
      ensures Lookup(admitted, apiKey) == if limited then Lookup(old(admitted), apiKey) else Lookup(old(admitted), apiKey) + [now]
      ensures forall k :: k != apiKey ==> Lookup(admitted, k) == Lookup(old(admitted), k)
      ensures started && lastNow == now
      ensures monotone == (old(monotone) && (!old(started) || old(lastNow) <= now))
      ensures monotone ==> Lookup(requests, apiKey) == Prune(Lookup(admitted, apiKey), now - WindowSeconds)
    {
      ConsistentStep(requestsPerMinute, requests, admitted, cutoffs, lastNow, started, monotone, apiKey, now);
      var minuteAgo := now - WindowSeconds;
      monotone, started, lastNow, cutoffs :=
        monotone && (!started || lastNow <= now), true, now, cutoffs[apiKey := minuteAgo];

      // Keep only the timestamps of the last minute.
      requests := requests[apiKey := Prune(Lookup(requests, apiKey), minuteAgo)];

      if |requests[apiKey]| >= requestsPerMinute {
        return true;
      }

      // Record the admitted request.
      requests, admitted := requests[apiKey := requests[apiKey] + [now]], admitted[apiKey := Lookup(admitted, apiKey) + [now]];
      return false;
    }

    /**
     * The guarantee SlidingWindowBound gives, stated for this limiter: while no
     * call has moved the clock backwards, every key has at most the budget of
     * admitted requests in the 60 seconds up to the latest call.
     */
    lemma WindowBound(key: K)
      requires Valid() && monotone
      ensures |Prune(Lookup(admitted, key), lastNow - WindowSeconds)| <= Cap(requestsPerMinute)
      ensures Sorted(Lookup(requests, key))
    {
      SlidingWindowBound(requestsPerMinute, requests, admitted, cutoffs, lastNow, started, key);
    }
  }
}
