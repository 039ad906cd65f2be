// Fixed-window request limiting (app/auth/rate_limiter.py), and what it guarantees over
// a whole trace of requests.
module RateLimiter {
  // A window: when it was opened, and how many requests it has counted.
  datatype Bucket = Bucket(start: real, count: nat)
  type Buckets = map<string, Bucket>

  // The bucket of `key` once a request at time `now` has been counted.
  function Counted(buckets: Buckets, key: string, now: real, window: real): Bucket {
    if key in buckets && now - buckets[key].start < window
    then Bucket(buckets[key].start, buckets[key].count + 1)
    else Bucket(now, 1)
  }

  class RateLimiter {
    const window: real
    var buckets: Buckets

    constructor (window: real)
      requires window > 0.0
      ensures this.window == window && buckets == map[]
    {
      this.window := window;
      buckets := map[];
    }

    method Check(key: string, limit: nat, now: real) returns (allowed: bool)
      requires window > 0.0
      modifies this`buckets
      ensures buckets == old(buckets)[key := Counted(old(buckets), key, now, window)]
      ensures allowed <==> buckets[key].count <= limit
    {
      var b := if key in buckets then buckets[key] else Bucket(now, 0);
      if now - b.start >= window {
        b := Bucket(now, 0);
      }
      b := b.(count := b.count + 1);
      buckets := buckets[key := b];
      return b.count <= limit;
    }
  }

  datatype Request = Request(key: string, at: real)

  // Requests in arrival order, under a clock that never goes back.
  ghost predicate Monotone(trace: seq<Request>) {
    forall i, j :: 0 <= i < j < |trace| ==> trace[i].at <= trace[j].at
  }

  // The limiter's buckets after a whole trace.
  function After(trace: seq<Request>, window: real): Buckets {
    if trace == [] then map[]
    else
      var b := After(trace[..|trace| - 1], window);
      var r := trace[|trace| - 1];
      b[r.key := Counted(b, r.key, r.at, window)]
  }

  // Whether the last request of a trace is let through.
  predicate LastAdmitted(trace: seq<Request>, window: real, limit: nat)
    requires trace != []
  {
    After(trace, window)[trace[|trace| - 1].key].count <= limit
  }

  // How many requests of `key` in [from, to) the limiter admits over the trace.
  function Admitted(trace: seq<Request>, window: real, limit: nat, key: string, from: real, to: real): nat {
    if trace == [] then 0
    else
      var r := trace[|trace| - 1];
      Admitted(trace[..|trace| - 1], window, limit, key, from, to)
      + (if r.key == key && from <= r.at < to && LastAdmitted(trace, window, limit) then 1 else 0)
  }

  // How many windows of `key` begin in [from, to) over the trace.
  ghost function Begun(trace: seq<Request>, window: real, key: string, from: real, to: real): nat {
    if trace == [] then 0
    else
      var r := trace[|trace| - 1];
      Begun(trace[..|trace| - 1], window, key, from, to)
      + (if r.key == key && from <= r.at < to && After(trace, window)[key] == Bucket(r.at, 1) then 1 else 0)
  }

  function Min(a: int, b: int): int {
    if a <= b then a else b
  }

  // Multiplication as repeated addition, which is how the account below grows.
  ghost function IntTimes(n: nat, x: int): (r: int)
    ensures r == n * x
  {
    if n == 0 then 0 else IntTimes(n - 1, x) + x
  }

  ghost function RealTimes(n: nat, x: real): (r: real)
    ensures r == n as real * x
  {
    if n == 0 then 0.0 else RealTimes(n - 1, x) + x
  }

  // The account of an interval: `begun` windows opened inside it, each a full window length
  // after the one before; what the current window can still admit is held back.
  ghost predicate Account(admitted: int, begun: nat, bs: Buckets, key: string, window: real, limit: nat, from: real, to: real) {
    if key !in bs then admitted == 0 && begun == 0
    else
      var b := bs[key];
      && b.count >= 1
      && admitted <= IntTimes(begun, limit) + limit - 1 - (if b.start < to then limit - Min(b.count, limit) else 0)
      && (begun >= 1 ==>
            && b.start >= from
            && RealTimes(begun - 1, window) < to - from
            && (b.start < to ==> b.start >= from + RealTimes(begun - 1, window)))
  }

  lemma {:induction false} AccountHolds(trace: seq<Request>, window: real, limit: nat, key: string, from: real, to: real)
    requires Monotone(trace) && window > 0.0 && limit >= 1 && from <= to
    ensures Account(Admitted(trace, window, limit, key, from, to), Begun(trace, window, key, from, to),
                    After(trace, window), key, window, limit, from, to)
    ensures key in After(trace, window) ==> trace != [] && After(trace, window)[key].start <= trace[|trace| - 1].at
    ensures trace != [] && trace[|trace| - 1].at < from ==> Admitted(trace, window, limit, key, from, to) == 0
  {
    if trace != [] {
      var init, r := trace[..|trace| - 1], trace[|trace| - 1];
      AccountHolds(init, window, limit, key, from, to);
    }
  }

  // The fixed-window guarantee: any half-open interval as long as k windows lets through
  // fewer than (k + 1) * limit requests of a key, whatever else is going on.
  lemma IntervalBound(trace: seq<Request>, window: real, limit: nat, key: string, from: real, k: nat)
    requires Monotone(trace) && window > 0.0
    ensures Admitted(trace, window, limit, key, from, from + k as real * window) <= (k + 1) * limit
    ensures limit >= 1 ==> Admitted(trace, window, limit, key, from, from + k as real * window) < (k + 1) * limit
  {
    var to := from + k as real * window;
    assert k as real * window >= 0.0;
    if limit == 0 {
      NothingAdmitted(trace, window, key, from, to);
    } else {
      AccountHolds(trace, window, limit, key, from, to);
      BegunNeedsBucket(trace, window, key, from, to);
      WindowsFit(Begun(trace, window, key, from, to), k, window, limit, to - from);
    }
  }

  // No more than k windows begin, each a full length after the one before, in k lengths.
  lemma WindowsFit(begun: nat, k: nat, window: real, limit: nat, length: real)
    requires length == k as real * window && window > 0.0
    requires begun >= 1 ==> RealTimes(begun - 1, window) < length
    ensures begun <= k
    ensures IntTimes(begun, limit) <= k * limit == (k + 1) * limit - limit
  {
    if begun > k {
      TimesMonotone(k, begun - 1, window);
      assert false;
    }
    var spare := k - begun;
    assert k * limit == begun * limit + spare * limit;
  }

  lemma {:induction false} TimesMonotone(m: nat, n: nat, x: real)
    requires m <= n && x > 0.0
    ensures RealTimes(m, x) <= RealTimes(n, x)
  {
    if m < n {
      TimesMonotone(m, n - 1, x);
    }
  }

  lemma {:induction false} BegunNeedsBucket(trace: seq<Request>, window: real, key: string, from: real, to: real)
    ensures key in After(trace, window) || Begun(trace, window, key, from, to) == 0
  {
    if trace != [] {
      BegunNeedsBucket(trace[..|trace| - 1], window, key, from, to);
    }
  }

  lemma {:induction false} NothingAdmitted(trace: seq<Request>, window: real, key: string, from: real, to: real)
    ensures Admitted(trace, window, 0, key, from, to) == 0
    ensures key in After(trace, window) ==> After(trace, window)[key].count >= 1
  {
    if trace != [] {
      NothingAdmitted(trace[..|trace| - 1], window, key, from, to);
    }
  }

  lemma AfterOne(trace: seq<Request>, r: Request, window: real, limit: nat, key: string, from: real, to: real)
    ensures var b := Counted(After(trace, window), r.key, r.at, window);
            && After(trace + [r], window) == After(trace, window)[r.key := b]
            && Admitted(trace + [r], window, limit, key, from, to)
            == Admitted(trace, window, limit, key, from, to)
               + (if r.key == key && from <= r.at < to && b.count <= limit then 1 else 0)
  {
    assert (trace + [r])[..|trace|] == trace;
  }

  // ----- The bound cannot be lowered -----

  // n requests of one key at one moment.
  function Burst(key: string, at: real, n: nat): (r: seq<Request>)
    ensures forall q <- r :: q == Request(key, at)
  {
    if n == 0 then [] else Burst(key, at, n - 1) + [Request(key, at)]
  }

  // A window opened half a length before `from` and used up at `from`, and then k more, each
  // used up the moment it opens.
  function Crowd(key: string, from: real, window: real, limit: nat, k: nat): seq<Request>
    requires limit >= 1
  {
    if k == 0 then [Request(key, from - window / 2.0)] + Burst(key, from, limit - 1)
    else Crowd(key, from, window, limit, k - 1) + Burst(key, Opening(from, window, k), limit)
  }

  // When the k-th window after the first one opens.
  function Opening(from: real, window: real, k: nat): real {
    from - window / 2.0 + k as real * window
  }

  // A burst that the key's window, or a new one, has room for is let through as a whole.
  lemma {:induction false} BurstAdmitted(trace: seq<Request>, key: string, at: real, n: nat, window: real, limit: nat, from: real, to: real)
    requires window > 0.0 && from <= at < to
    requires Counted(After(trace, window), key, at, window).count - 1 + n <= limit
    ensures var all := trace + Burst(key, at, n);
            && Admitted(all, window, limit, key, from, to) == Admitted(trace, window, limit, key, from, to) + n
            && (n == 0 ==> After(all, window) == After(trace, window))
            && (n > 0 ==>
                  var b := Counted(After(trace, window), key, at, window);
                  key in After(all, window) && After(all, window)[key] == Bucket(b.start, b.count - 1 + n))
  {
    hide After, Admitted;
    if n == 0 {
      assert trace + Burst(key, at, n) == trace;
    } else {
      BurstAdmitted(trace, key, at, n - 1, window, limit, from, to);
      var before := trace + Burst(key, at, n - 1);
      AfterOne(before, Request(key, at), window, limit, key, from, to);
      assert trace + Burst(key, at, n) == before + [Request(key, at)];
    }
  }

  lemma MonotoneAppend(trace: seq<Request>, key: string, at: real, n: nat)
    requires Monotone(trace) && forall r <- trace :: r.at <= at
    ensures Monotone(trace + Burst(key, at, n)) && forall r <- trace + Burst(key, at, n) :: r.at <= at
  {
    var all := trace + Burst(key, at, n);
    forall i, j | 0 <= i < j < |all|
      ensures all[i].at <= all[j].at
    {
      assert all[i] in trace || all[i] in Burst(key, at, n);
      assert j >= |trace| ==> all[j] in Burst(key, at, n);
    }
  }

  lemma {:induction false} CrowdAccount(key: string, from: real, window: real, limit: nat, k: nat, to: real)
    requires limit >= 1 && window > 0.0 && to > from && to > Opening(from, window, k)
    ensures var t := Crowd(key, from, window, limit, k);
            && Monotone(t) && (forall r <- t :: r.at <= (if k == 0 then from else Opening(from, window, k)))
            && Admitted(t, window, limit, key, from, to) == IntTimes(k, limit) + limit - 1
            && key in After(t, window) && After(t, window)[key] == Bucket(Opening(from, window, k), limit)
  {
    hide After, Admitted;
    if k == 0 {
      CrowdOpens(key, from, window, limit, to);
    } else {
      OpeningsApart(from, window, k);
      var before := Crowd(key, from, window, limit, k - 1);
      CrowdAccount(key, from, window, limit, k - 1, to);
      BurstAdmitted(before, key, Opening(from, window, k), limit, window, limit, from, to);
      MonotoneAppend(before, key, Opening(from, window, k), limit);
    }
  }

  lemma OpeningsApart(from: real, window: real, k: nat)
    requires window > 0.0 && k >= 1
    ensures Opening(from, window, k) == Opening(from, window, k - 1) + window
    ensures Opening(from, window, k) > from
    ensures Opening(from, window, 0) == from - window / 2.0
  {
    assert k as real * window == (k - 1) as real * window + window;
    assert (k - 1) as real * window >= 0.0;
    assert 0 as real * window == 0.0;
  }

  lemma CrowdOpens(key: string, from: real, window: real, limit: nat, to: real)
    requires limit >= 1 && window > 0.0 && to > from
    ensures var t := Crowd(key, from, window, limit, 0);
            && Monotone(t) && (forall r <- t :: r.at <= from)
            && Admitted(t, window, limit, key, from, to) == limit - 1
            && key in After(t, window) && After(t, window)[key] == Bucket(Opening(from, window, 0), limit)
  {
    hide After, Admitted;
    var first := Request(key, from - window / 2.0);
    NothingBefore(key, window, limit, from, to);
    OpeningsApart(from, window, 1);
    AfterOne([], first, window, limit, key, from, to);
    assert [] + [first] == [first];
    BurstAdmitted([first], key, from, limit - 1, window, limit, from, to);
    MonotoneAppend([first], key, from, limit - 1);
  }

  lemma NothingBefore(key: string, window: real, limit: nat, from: real, to: real)
    ensures After([], window) == map[] && Admitted([], window, limit, key, from, to) == 0
  {
  }

  // The interval bound cannot be lowered: for every limit, window, number of windows and
  // start there is a trace whose interval lets through exactly one request less.
  lemma IntervalBoundIsTight(key: string, from: real, window: real, limit: nat, k: nat)
    requires window > 0.0 && limit >= 1 && k >= 1
    ensures var t := Crowd(key, from, window, limit, k);
            Monotone(t) && Admitted(t, window, limit, key, from, from + k as real * window) == (k + 1) * limit - 1
  {
    hide After, Admitted, Crowd;
    var to := from + k as real * window;
    OpeningsApart(from, window, k);
    CrowdAccount(key, from, window, limit, k, to);
    assert (k + 1) * limit == k * limit + limit;
  }

  // How many requests of the window of `key` opened at `start` are admitted.
  function AdmittedInWindow(trace: seq<Request>, window: real, limit: nat, key: string, start: real): nat {
    if trace == [] then 0
    else
      var r := trace[|trace| - 1];
      AdmittedInWindow(trace[..|trace| - 1], window, limit, key, start)
      + (if r.key == key && After(trace, window)[key].start == start && LastAdmitted(trace, window, limit) then 1 else 0)
  }

  // A window admits its first `limit` requests and no others.
  lemma {:induction false} WindowBound(trace: seq<Request>, window: real, limit: nat, key: string, start: real)
    requires Monotone(trace) && window > 0.0
    ensures AdmittedInWindow(trace, window, limit, key, start) <= limit
    ensures key in After(trace, window) && After(trace, window)[key].start == start ==>
              AdmittedInWindow(trace, window, limit, key, start) == Min(After(trace, window)[key].count, limit)
    ensures key !in After(trace, window) || After(trace, window)[key].start < start ==>
              AdmittedInWindow(trace, window, limit, key, start) == 0
    ensures key in After(trace, window) ==> trace != [] && After(trace, window)[key].start <= trace[|trace| - 1].at
  {
    if trace != [] {
      WindowBound(trace[..|trace| - 1], window, limit, key, start);
    }
  }

  // The trace as `key` alone produced it.
  function Only(trace: seq<Request>, key: string): seq<Request> {
    if trace == [] then []
    else
      var r := trace[|trace| - 1];
      Only(trace[..|trace| - 1], key) + (if r.key == key then [r] else [])
  }

  // Other keys' traffic neither uses nor frees a key's allowance.
  lemma {:induction false} OtherKeysHaveNoEffect(trace: seq<Request>, window: real, limit: nat, key: string, from: real, to: real)
    ensures var bs, own := After(trace, window), After(Only(trace, key), window);
            (key in bs <==> key in own) && (key in bs ==> bs[key] == own[key])
    ensures Admitted(trace, window, limit, key, from, to) == Admitted(Only(trace, key), window, limit, key, from, to)
  {
    if trace != [] {
      var init, r := trace[..|trace| - 1], trace[|trace| - 1];
      OtherKeysHaveNoEffect(init, window, limit, key, from, to);
      hide After, Admitted;
      AfterOne(init, r, window, limit, key, from, to);
      assert trace == init + [r];
      if r.key == key {
        AfterOne(Only(init, key), r, window, limit, key, from, to);
      } else {
        assert Only(trace, key) == Only(init, key);
      }
    }
  }
}
