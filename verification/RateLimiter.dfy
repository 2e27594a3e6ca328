/** The per-key request limiter (crates/apollo-node/src/main.rs, RateLimiter). Instants are nanoseconds. */
module RateLimiter {

  const MILLISECOND: nat := 1_000_000
  const SECOND: nat := 1000 * MILLISECOND

  datatype Request = Request(key: string, at: nat)

  /** The spacing of one key's acceptances, in nanoseconds: the quotient is a whole number of milliseconds. */
  function IntervalOf(rps: nat): nat
    requires rps > 0
  {
    (1000 / rps) * MILLISECOND
  }

  /** Instants before the last accepted one count as zero elapsed time. */
  function Elapsed(last: nat, now: nat): nat {
    if now >= last then now - last else 0
  }

  predicate Accepts(buckets: map<string, nat>, interval: nat, r: Request) {
    r.key in buckets ==> Elapsed(buckets[r.key], r.at) >= interval
  }

  class Limiter {
    const rpsLimit: nat
    var buckets: map<string, nat>

    /** A limit of zero makes every check divide by zero. */
    constructor (rps: nat)
      ensures rpsLimit == rps && buckets == map[]
    {
      rpsLimit := rps;
      buckets := map[];
    }

    method Check(key: string, now: nat) returns (ok: bool)
      requires rpsLimit > 0
      modifies this`buckets
      ensures ok == Accepts(old(buckets), IntervalOf(rpsLimit), Request(key, now))
      ensures buckets == After(old(buckets), IntervalOf(rpsLimit), Request(key, now))
    {
      var interval := (1000 / rpsLimit) * MILLISECOND;
      if key in buckets {
        var last := buckets[key];
        if Elapsed(last, now) < interval { return false; }
      }
      buckets := buckets[key := now];
      return true;
    }
  }

  // ---- whole runs ----

  function After(buckets: map<string, nat>, interval: nat, r: Request): map<string, nat> {
    if Accepts(buckets, interval, r) then buckets[r.key := r.at] else buckets
  }

  function Buckets(reqs: seq<Request>, interval: nat): map<string, nat> {
    if reqs == [] then map[] else After(Buckets(reqs[..|reqs| - 1], interval), interval, reqs[|reqs| - 1])
  }

  /** Requests of `key` accepted in [from, from + width). */
  function AcceptedIn(reqs: seq<Request>, interval: nat, key: string, from: nat, width: nat): nat {
    if reqs == [] then 0
    else
      var init, r := reqs[..|reqs| - 1], reqs[|reqs| - 1];
      AcceptedIn(init, interval, key, from, width)
      + (if r.key == key && from <= r.at < from + width && Accepts(Buckets(init, interval), interval, r) then 1 else 0)
  }

  lemma {:induction false} AcceptedSpread(reqs: seq<Request>, interval: nat, key: string, from: nat, width: nat)
    requires interval > 0
    ensures var n, b := AcceptedIn(reqs, interval, key, from, width), Buckets(reqs, interval);
            n > 0 ==> key in b && from + (n - 1) * interval <= b[key] && (n - 1) * interval < width
  {
    if reqs != [] {
      var init, r := reqs[..|reqs| - 1], reqs[|reqs| - 1];
      AcceptedSpread(init, interval, key, from, width);
      var n := AcceptedIn(init, interval, key, from, width);
      if n > 0 { assert n * interval == (n - 1) * interval + interval; }
    }
  }

  function CeilDiv(a: nat, b: nat): nat
    requires b > 0
  {
    (a + b - 1) / b
  }

  /** In any run, whatever the clock does, a half-open window holds at most width over interval acceptances
      of a key, rounded up. */
  lemma WindowBound(reqs: seq<Request>, interval: nat, key: string, from: nat, width: nat)
    requires interval > 0
    ensures AcceptedIn(reqs, interval, key, from, width) <= CeilDiv(width, interval)
  {
    AcceptedSpread(reqs, interval, key, from, width);
    var n := AcceptedIn(reqs, interval, key, from, width);
    if n > 0 { CeilAbove(n, width, interval); }
  }

  lemma CeilAbove(n: nat, width: nat, interval: nat)
    requires interval > 0 && n > 0 && (n - 1) * interval < width
    ensures n <= CeilDiv(width, interval)
  {
    var c := CeilDiv(width, interval);
    assert c * interval >= width;
    if c <= n - 1 { MulMono(c, n - 1, interval); }
  }

  lemma MulMono(a: int, b: int, m: int)
    requires a <= b && m >= 0
    ensures a * m <= b * m
  {
  }

  // ---- the bound is reached, and when it equals the configured rate ----

  /** n + 1 requests of one key, one interval apart, starting at time 0. */
  function EvenRequests(key: string, interval: nat, n: nat): seq<Request> {
    (if n == 0 then [] else EvenRequests(key, interval, n - 1)) + [Request(key, n * interval)]
  }

  lemma OneMoreAccepted(reqs: seq<Request>, interval: nat, key: string, at: nat, width: nat)
    requires key in Buckets(reqs, interval) && Buckets(reqs, interval)[key] + interval == at < width
    ensures var more := reqs + [Request(key, at)];
            && AcceptedIn(more, interval, key, 0, width) == AcceptedIn(reqs, interval, key, 0, width) + 1
            && key in Buckets(more, interval) && Buckets(more, interval)[key] == at
  {
    var more := reqs + [Request(key, at)];
    assert more[..|more| - 1] == reqs;
  }

  lemma {:induction false} EvenRequestsAccepted(key: string, interval: nat, n: nat, width: nat)
    requires n * interval < width
    ensures AcceptedIn(EvenRequests(key, interval, n), interval, key, 0, width) == n + 1
    ensures key in Buckets(EvenRequests(key, interval, n), interval)
    ensures Buckets(EvenRequests(key, interval, n), interval)[key] == n * interval
  {
    var reqs := EvenRequests(key, interval, n);
    if n == 0 {
      assert reqs[..0] == [] && Buckets([], interval) == map[];
    } else {
      assert (n - 1) * interval + interval == n * interval;
      EvenRequestsAccepted(key, interval, n - 1, width);
      OneMoreAccepted(EvenRequests(key, interval, n - 1), interval, key, n * interval, width);
    }
  }

  /** Every run keeps every one-second window of every key to `rps` acceptances. */
  ghost predicate KeepsRate(rps: nat)
    requires rps > 0
  {
    forall reqs: seq<Request>, key: string, from: nat :: AcceptedIn(reqs, IntervalOf(rps), key, from, SECOND) <= rps
  }

  /** Because the interval is rounded down to milliseconds, the configured rate is kept exactly for the divisors
      of 1000; any other limit admits at least one request too many in some second. */
  lemma KeepsRateIff(rps: nat)
    requires rps > 0
    ensures KeepsRate(rps) <==> 1000 % rps == 0
  {
    var interval := IntervalOf(rps);
    if 1000 % rps == 0 {
      assert rps * (1000 / rps) == 1000;
      assert interval > 0 && rps * interval == SECOND;
      forall reqs: seq<Request>, key: string, from: nat ensures AcceptedIn(reqs, interval, key, from, SECOND) <= rps {
        WindowBound(reqs, interval, key, from, SECOND);
        CeilExact(rps, interval);
      }
    } else {
      assert rps * (1000 / rps) < 1000;
      assert rps * interval < SECOND;
      EvenRequestsAccepted("k", interval, rps, SECOND);
      assert AcceptedIn(EvenRequests("k", interval, rps), interval, "k", 0, SECOND) > rps;
    }
  }

  lemma CeilExact(n: nat, interval: nat)
    requires interval > 0
    ensures CeilDiv(n * interval, interval) == n
  {
    var c := CeilDiv(n * interval, interval);
    assert n * interval <= c * interval < n * interval + interval;
    if c > n { MulMono(n + 1, c, interval); }
    if c < n { MulMono(c + 1, n, interval); }
  }

  // ---- keys do not interfere ----

  function OnlyKey(reqs: seq<Request>, key: string): seq<Request> {
    if reqs == [] then []
    else
      var init := OnlyKey(reqs[..|reqs| - 1], key);
      if reqs[|reqs| - 1].key == key then init + [reqs[|reqs| - 1]] else init
  }

  lemma {:induction false} OwnRequestsDecide(reqs: seq<Request>, interval: nat, key: string)
    ensures var all, own := Buckets(reqs, interval), Buckets(OnlyKey(reqs, key), interval);
            (key in all <==> key in own) && (key in all ==> all[key] == own[key])
  {
    if reqs != [] {
      var init, r := reqs[..|reqs| - 1], reqs[|reqs| - 1];
      OwnRequestsDecide(init, interval, key);
      if r.key == key {
        var own := OnlyKey(init, key);
        assert (own + [r])[..|own|] == own;
      }
    }
  }

  /** A key's next request is decided as if no other key had ever been used. */
  lemma KeysAreIndependent(reqs: seq<Request>, interval: nat, r: Request)
    ensures Accepts(Buckets(reqs, interval), interval, r)
       <==> Accepts(Buckets(OnlyKey(reqs, r.key), interval), interval, r)
  {
    OwnRequestsDecide(reqs, interval, r.key);
  }

  // ---- single decisions ----

  /** A key's first request is accepted, and then exactly those at least one interval after the last accepted one. */
  lemma AcceptsIff(buckets: map<string, nat>, interval: nat, r: Request)
    requires interval > 0
    ensures Accepts(buckets, interval, r) <==> r.key !in buckets || r.at >= buckets[r.key] + interval
  {
  }

  /** A rejected request changes no later decision: it might as well never have been made. */
  lemma {:induction false} RejectedIsForgotten(before: seq<Request>, interval: nat, r: Request, after: seq<Request>)
    requires !Accepts(Buckets(before, interval), interval, r)
    ensures Buckets(before + [r] + after, interval) == Buckets(before + after, interval)
  {
    if after == [] {
      assert before + [r] + after == before + [r] && before + after == before;
      assert (before + [r])[..|before|] == before;
    } else {
      var m := |after| - 1;
      RejectedIsForgotten(before, interval, r, after[..m]);
      assert (before + [r] + after)[..|before| + 1 + m] == before + [r] + after[..m];
      assert (before + after)[..|before| + m] == before + after[..m];
      hide Accepts;
    }
  }
}
