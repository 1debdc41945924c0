/** The fixed-window rate limiter, over any run of calls. */
module RateLimit {
  import opened Wrappers
  import opened Codec

  /** Instants are nanoseconds on the monotonic clock. */
  const SECOND: nat := 1_000_000_000

  function Seconds(k: nat): nat {
    SECOND * k
  }

  datatype Window = Window(start: nat, count: nat)

  /**
   One call: the reading its elapsed check makes, the second reading made only if the window is
   reset, and the instant the call is taken to happen at, anywhere from the first to the last.
   */
  datatype Call = Call(check: nat, reset: nat, at: nat)

  function Quota(rps: nat): nat {
    if rps < 1 then 1 else rps
  }

  predicate Resets(w: Window, c: Call) {
    SaturatingSub(c.check, w.start) >= SECOND
  }

  function Next(w: Window, c: Call): Window {
    if Resets(w, c) then Window(c.reset, 1) else Window(w.start, w.count + 1)
  }

  predicate Allowed(rps: nat, w: Window, c: Call) {
    Next(w, c).count <= Quota(rps)
  }

  /** The state every clone of the service shares, under its lock. */
  class RateLimitService {
    const rps: nat
    var start: nat
    var count: nat

    ghost function View(): Window
      reads this
    {
      Window(start, count)
    }

    constructor (rps: nat, now: nat)
      ensures this.rps == rps && View() == Window(now, 0)
    {
      this.rps, start, count := rps, now, 0;
    }

    method Admit(c: Call) returns (allowed: bool)
      modifies this
      ensures View() == Next(old(View()), c)
      ensures allowed == Allowed(rps, old(View()), c)
    {
      if SaturatingSub(c.check, start) >= SECOND {
        start := c.reset;
        count := 0;
      }
      count := count + 1;
      allowed := count <= Quota(rps);
    }
  }

  // ----- Runs -----

  function LastReading(w: Window, c: Call): nat {
    if Resets(w, c) then c.reset else c.check
  }

  /** The clock never goes back, from `now` on. */
  predicate Legal(cs: seq<Call>, w: Window, now: nat) {
    cs == [] ||
    (&& now <= cs[0].check <= cs[0].at <= LastReading(w, cs[0])
     && Legal(cs[1..], Next(w, cs[0]), LastReading(w, cs[0])))
  }

  function One(b: bool): nat {
    if b then 1 else 0
  }

  /** How many calls are admitted at an instant in `from..to`. */
  function Admitted(cs: seq<Call>, w: Window, rps: nat, from: nat, to: nat): nat {
    if cs == [] then 0
    else One(Allowed(rps, w, cs[0]) && from <= cs[0].at < to) + Admitted(cs[1..], Next(w, cs[0]), rps, from, to)
  }

  /** The most windows that can open in `first..to`: openings are at least a second apart. */
  function Openings(first: nat, to: nat): nat {
    if to <= first then 0 else (to - first - 1) / SECOND + 1
  }

  lemma OpeningsAfterOne(first: nat, opening: nat, to: nat)
    requires first <= opening < to
    ensures Openings(opening + SECOND, to) + 1 <= Openings(first, to)
  {
  }

  lemma OpeningsWithin(first: nat, from: nat, k: nat)
    ensures first > from ==> Openings(first, from + Seconds(k)) <= k
    ensures first >= from + SECOND && k > 0 ==> Openings(first, from + Seconds(k)) <= k - 1
  {
  }

  lemma {:induction false} NoneAfter(cs: seq<Call>, w: Window, now: nat, rps: nat, from: nat, to: nat)
    requires Legal(cs, w, now) && to <= now
    ensures Admitted(cs, w, rps, from, to) == 0
  {
    if cs != [] {
      NoneAfter(cs[1..], Next(w, cs[0]), LastReading(w, cs[0]), rps, from, to);
    }
  }

  /** `n` full quotas. */
  function Quotas(rps: nat, n: nat): nat {
    n * Quota(rps)
  }

  lemma QuotasGrow(rps: nat, m: nat, n: nat)
    ensures m <= n ==> Quotas(rps, m) <= Quotas(rps, n)
    ensures Quotas(rps, m + 1) == Quotas(rps, m) + Quota(rps)
  {
  }

  lemma FirstOfWindow(w: Window, c: Call, rps: nat, to: nat)
    requires Resets(w, c) && c.check <= c.at <= c.reset && c.at < to
    ensures Quota(rps) + Quotas(rps, Openings(c.reset + SECOND, to)) <= Quotas(rps, Openings(w.start + SECOND, to))
  {
    var later, all := Openings(c.reset + SECOND, to), Openings(w.start + SECOND, to);
    OpeningsAfterOne(w.start + SECOND, c.at, to);
    assert later <= Openings(c.at + SECOND, to);
    QuotasGrow(rps, later, all);
    QuotasGrow(rps, later + 1, all);
  }

  /** From any state: what is left of the quota, and a full quota for each window still to open. */
  lemma {:induction false} FutureBound(cs: seq<Call>, w: Window, now: nat, rps: nat, from: nat, to: nat)
    requires Legal(cs, w, now)
    ensures Admitted(cs, w, rps, from, to)
         <= SaturatingSub(Quota(rps), w.count) + Quotas(rps, Openings(w.start + SECOND, to))
  {
    if cs != [] {
      var c, w' := cs[0], Next(w, cs[0]);
      if to <= c.at {
        NoneAfter(cs[1..], w', LastReading(w, c), rps, from, to);
      } else {
        FutureBound(cs[1..], w', LastReading(w, c), rps, from, to);
        if Resets(w, c) {
          FirstOfWindow(w, c, rps, to);
        }
      }
    }
  }

  /** The windows after the one a call inside the interval belongs to. */
  lemma WithinInterval(w: Window, c: Call, rps: nat, from: nat, k: nat)
    requires c.check <= c.at <= LastReading(w, c) && from <= c.at < from + Seconds(k)
    ensures Quotas(rps, Openings(Next(w, c).start + SECOND, from + Seconds(k))) + Quota(rps) <= Quotas(rps, k + 1)
  {
    var later := Openings(Next(w, c).start + SECOND, from + Seconds(k));
    OpeningsWithin(Next(w, c).start + SECOND, from, k);
    assert later <= k;
    QuotasGrow(rps, later, k);
    QuotasGrow(rps, k, k);
  }

  lemma {:induction false} BoundInQuotas(cs: seq<Call>, w: Window, now: nat, rps: nat, from: nat, k: nat)
    requires Legal(cs, w, now)
    ensures Admitted(cs, w, rps, from, from + Seconds(k)) <= Quotas(rps, k + 1)
  {
    var to := from + Seconds(k);
    if cs != [] {
      var c, w' := cs[0], Next(w, cs[0]);
      if c.at < from {
        BoundInQuotas(cs[1..], w', LastReading(w, c), rps, from, k);
      } else if to <= c.at {
        NoneAfter(cs[1..], w', LastReading(w, c), rps, from, to);
      } else {
        FutureBound(cs, w, now, rps, from, to);
        FutureBound(cs[1..], w', LastReading(w, c), rps, from, to);
        WithinInterval(w, c, rps, from, k);
      }
    }
  }

  // ----- The bound is reached: `k` seconds can admit `k + 1` quotas, for every rate -----

  function Burst(t: nat, n: nat): seq<Call> {
    if n == 0 then [] else [Call(t, t, t)] + Burst(t, n - 1)
  }

  /** A full quota at each of `base` plus `j` seconds to `base` plus `k` seconds. */
  function Train(base: nat, j: nat, k: nat, rps: nat): seq<Call>
    decreases k + 1 - j
  {
    if j > k then [] else Burst(base + Seconds(j), Quota(rps)) + Train(base, j + 1, k, rps)
  }

  /** A full quota at the last instant of second 0, then one at the start of each of `k` more. */
  function Worst(k: nat, rps: nat): seq<Call> {
    Burst(SECOND - 1, Quota(rps)) + Train(0, 1, k, rps)
  }

  lemma AdmitOne(t: nat, rest: seq<Call>, w: Window, now: nat, rps: nat, from: nat, to: nat)
    requires now <= t && from <= t < to
    requires var w' := Next(w, Call(t, t, t)); w'.count <= Quota(rps) && Legal(rest, w', t)
    ensures Legal([Call(t, t, t)] + rest, w, now)
    ensures Admitted([Call(t, t, t)] + rest, w, rps, from, to)
         == 1 + Admitted(rest, Next(w, Call(t, t, t)), rps, from, to)
  {
    assert ([Call(t, t, t)] + rest)[1..] == rest;
  }

  /** A burst within a window that has room for it is admitted in full. */
  ghost predicate Fills(t: nat, n: nat, rest: seq<Call>, w: Window, now: nat, rps: nat, from: nat, to: nat) {
    && Legal(Burst(t, n) + rest, w, now)
    && Admitted(Burst(t, n) + rest, w, rps, from, to)
       == n + Admitted(rest, Window(w.start, w.count + n), rps, from, to)
  }

  lemma {:induction false} BurstFills(t: nat, n: nat, rest: seq<Call>, w: Window, now: nat, rps: nat, from: nat, to: nat)
    requires w.start <= t < w.start + SECOND && now <= t && from <= t < to
    requires w.count + n <= Quota(rps)
    requires Legal(rest, Window(w.start, w.count + n), if n == 0 then now else t)
    ensures Fills(t, n, rest, w, now, rps, from, to)
  {
    if n == 0 {
      assert Burst(t, n) + rest == rest;
    } else {
      var w' := Window(w.start, w.count + 1);
      BurstFills(t, n - 1, rest, w', t, rps, from, to);
      assert Next(w, Call(t, t, t)) == w';
      AdmitOne(t, Burst(t, n - 1) + rest, w, now, rps, from, to);
      Associative([Call(t, t, t)], Burst(t, n - 1), rest);
    }
  }

  lemma {:induction false} TrainFills(base: nat, j: nat, k: nat, w: Window, now: nat, rps: nat, from: nat, to: nat)
    requires j <= k + 1 && w.start + SECOND <= base + Seconds(j) && now <= base + Seconds(j)
    requires from <= base + Seconds(j) && base + Seconds(k) < to
    ensures Legal(Train(base, j, k, rps), w, now)
    ensures Admitted(Train(base, j, k, rps), w, rps, from, to) == Quotas(rps, k + 1 - j)
    decreases k + 1 - j
  {
    if j <= k {
      var t, q, rest := base + Seconds(j), Quota(rps), Train(base, j + 1, k, rps);
      assert t + SECOND == base + Seconds(j + 1);
      TrainFills(base, j + 1, k, Window(t, q), t, rps, from, to);
      BurstFills(t, q - 1, rest, Window(t, 1), t, rps, from, to);
      AdmitOne(t, Burst(t, q - 1) + rest, w, now, rps, from, to);
      Associative([Call(t, t, t)], Burst(t, q - 1), rest);
      QuotasGrow(rps, k - j, 0);
    }
  }

  lemma BoundReachedInQuotas(k: nat, rps: nat)
    requires k > 0
    ensures Legal(Worst(k, rps), Window(0, 0), 0)
    ensures Admitted(Worst(k, rps), Window(0, 0), rps, SECOND - 1, SECOND - 1 + Seconds(k)) == Quotas(rps, k + 1)
  {
    var from := SECOND - 1;
    var to := from + Seconds(k);
    TrainFills(0, 1, k, Window(0, Quota(rps)), from, rps, from, to);
    BurstFills(from, Quota(rps), Train(0, 1, k, rps), Window(0, 0), 0, rps, from, to);
    QuotasGrow(rps, k, 0);
  }

  // ----- Exactly when the documented rate is kept -----

  /**
   At `from`, the window has used up its quota, or is over, or has not begun: no part of a quota is
   left over from before the interval to be spent inside it.
   */
  predicate Clean(w: Window, rps: nat, from: nat) {
    w.count >= Quota(rps) || w.start + SECOND <= from || from <= w.start
  }

  /** From a clean state, `k` seconds admit at most `k` quotas. */
  lemma CleanKeepsRate(cs: seq<Call>, w: Window, rps: nat, from: nat, k: nat)
    requires k > 0 && Legal(cs, w, from) && Clean(w, rps, from)
    ensures Admitted(cs, w, rps, from, from + Seconds(k)) <= Quotas(rps, k)
  {
    var to := from + Seconds(k);
    QuotasGrow(rps, k - 1, k);
    if w.start + SECOND <= from && cs != [] {
      var c := cs[0];
      var later := Openings(c.reset + SECOND, to);
      FutureBound(cs[1..], Next(w, c), LastReading(w, c), rps, from, to);
      OpeningsWithin(c.reset + SECOND, from, k);
      QuotasGrow(rps, later, k - 1);
    } else {
      var later := Openings(w.start + SECOND, to);
      FutureBound(cs, w, from, rps, from, to);
      OpeningsWithin(w.start + SECOND, from, k);
      QuotasGrow(rps, later, k);
      QuotasGrow(rps, later, k - 1);
    }
  }

  /** One call at `from`, then a full quota at the opening of each of the next `k` windows. */
  function Overdraw(w: Window, rps: nat, from: nat, k: nat): seq<Call> {
    [Call(from, from, from)] + Train(w.start, 1, k, rps)
  }

  /** From any other state, some run admits more than `k` quotas in them. */
  lemma OverdrawExceedsRate(w: Window, rps: nat, from: nat, k: nat)
    requires k > 0 && !Clean(w, rps, from)
    ensures Legal(Overdraw(w, rps, from, k), w, from)
    ensures Admitted(Overdraw(w, rps, from, k), w, rps, from, from + Seconds(k)) > Quotas(rps, k)
  {
    var to := from + Seconds(k);
    TrainFills(w.start, 1, k, Window(w.start, w.count + 1), from, rps, from, to);
    AdmitOne(from, Train(w.start, 1, k, rps), w, from, rps, from, to);
  }

  /** This run, if it is one, stays within one quota for each second. */
  predicate KeepsRate(cs: seq<Call>, w: Window, rps: nat, from: nat, k: nat) {
    Legal(cs, w, from) ==> Admitted(cs, w, rps, from, from + Seconds(k)) <= Quotas(rps, k)
  }

  lemma KeptInQuotas(w: Window, rps: nat, from: nat, k: nat)
    requires k > 0
    ensures Clean(w, rps, from) <==> forall cs :: KeepsRate(cs, w, rps, from, k)
  {
    if Clean(w, rps, from) {
      forall cs ensures KeepsRate(cs, w, rps, from, k) {
        if Legal(cs, w, from) {
          CleanKeepsRate(cs, w, rps, from, k);
        }
      }
    } else {
      OverdrawExceedsRate(w, rps, from, k);
      assert !KeepsRate(Overdraw(w, rps, from, k), w, rps, from, k);
    }
  }

  // ----- Rejections -----

  function Final(cs: seq<Call>, w: Window): Window {
    if cs == [] then w else Final(cs[1..], Next(w, cs[0]))
  }

  /** How many calls have been admitted since the current window opened, `sofar` of them before this run. */
  function Granted(cs: seq<Call>, w: Window, rps: nat, sofar: nat): nat {
    if cs == [] then sofar
    else Granted(cs[1..], Next(w, cs[0]), rps,
                 (if Resets(w, cs[0]) then 0 else sofar) + One(Allowed(rps, w, cs[0])))
  }

  function Capped(n: nat, rps: nat): nat {
    if n < Quota(rps) then n else Quota(rps)
  }

  lemma {:induction false} GrantedIsCapped(cs: seq<Call>, w: Window, rps: nat)
    ensures Granted(cs, w, rps, Capped(w.count, rps)) == Capped(Final(cs, w).count, rps)
  {
    if cs != [] {
      GrantedIsCapped(cs[1..], Next(w, cs[0]), rps);
    }
  }

  lemma RejectedInQuotas(cs: seq<Call>, now: nat, rps: nat, c: Call)
    ensures var w := Final(cs, Window(now, 0));
      !Allowed(rps, w, c) <==> c.check < w.start + SECOND && Granted(cs, Window(now, 0), rps, 0) == Quota(rps)
  {
    GrantedIsCapped(cs, Window(now, 0), rps);
  }

  // ----- The main results, in requests per second and nanoseconds -----

  lemma QuotasInNumbers(rps: nat, n: nat)
    ensures rps > 0 ==> Quota(rps) == rps && Quotas(rps, n) == n * rps
    ensures rps == 0 ==> Quota(rps) == 1 && Quotas(rps, n) == n
  {
  }

  /** Over any run whatever, any `k` seconds admit at most `k + 1` times the rate; a rate of 0 counts as 1. */
  lemma RateBound(cs: seq<Call>, w: Window, now: nat, rps: nat, from: nat, k: nat)
    requires Legal(cs, w, now)
    ensures rps > 0 ==> Admitted(cs, w, rps, from, from + 1_000_000_000 * k) <= (k + 1) * rps
    ensures rps == 0 ==> Admitted(cs, w, rps, from, from + 1_000_000_000 * k) <= k + 1
  {
    BoundInQuotas(cs, w, now, rps, from, k);
    QuotasInNumbers(rps, k + 1);
    assert Seconds(k) == 1_000_000_000 * k;
  }

  /** The bound cannot be lowered: this run meets it in an interval of exactly `k` seconds. */
  lemma RateBoundReached(k: nat, rps: nat)
    requires k > 0
    ensures Legal(Worst(k, rps), Window(0, 0), 0)
    ensures var n := Admitted(Worst(k, rps), Window(0, 0), rps, 999_999_999, 999_999_999 + 1_000_000_000 * k);
      n == if rps == 0 then k + 1 else (k + 1) * rps
  {
    BoundReachedInQuotas(k, rps);
    QuotasInNumbers(rps, k + 1);
    assert SECOND - 1 + Seconds(k) == 999_999_999 + 1_000_000_000 * k;
  }

  /** A run, if it is one, that stays within the documented rate over `k` seconds. */
  predicate WithinRate(cs: seq<Call>, w: Window, rps: nat, from: nat, k: nat) {
    Legal(cs, w, from) ==>
      Admitted(cs, w, rps, from, from + 1_000_000_000 * k) <= if rps == 0 then k else k * rps
  }

  /**
   The documented rate is kept over `k` seconds, whatever calls come in them, if and only if no part of a
   quota is left over from before: the window has admitted its full number, or is over, or has not begun.
   */
  lemma RateKeptExactly(w: Window, rps: nat, from: nat, k: nat)
    requires k > 0
    ensures (forall cs :: WithinRate(cs, w, rps, from, k)) <==>
      w.count >= (if rps == 0 then 1 else rps) || w.start + 1_000_000_000 <= from || from <= w.start
  {
    KeptInQuotas(w, rps, from, k);
    QuotasInNumbers(rps, k);
    forall cs ensures WithinRate(cs, w, rps, from, k) <==> KeepsRate(cs, w, rps, from, k) {
      assert Seconds(k) == 1_000_000_000 * k;
    }
    assert Clean(w, rps, from) <==> w.count >= (if rps == 0 then 1 else rps) || w.start + 1_000_000_000 <= from || from <= w.start;
    if forall cs :: WithinRate(cs, w, rps, from, k) {
      forall cs ensures KeepsRate(cs, w, rps, from, k) {
        assert WithinRate(cs, w, rps, from, k);
      }
    }
  }

  /** A call is rejected exactly when the current window is under a second old and has admitted its full number. */
  lemma RejectedExactly(cs: seq<Call>, now: nat, rps: nat, c: Call)
    ensures var w, granted := Final(cs, Window(now, 0)), Granted(cs, Window(now, 0), rps, 0);
      !Allowed(rps, w, c) <==> c.check < w.start + 1_000_000_000 && granted == if rps == 0 then 1 else rps
  {
    RejectedInQuotas(cs, now, rps, c);
    QuotasInNumbers(rps, 1);
  }

  // ----- One window, call by call -----

  lemma {:induction false} CountsWithin(cs: seq<Call>, w: Window, i: nat)
    requires i <= |cs| && forall j :: 0 <= j < |cs| ==> cs[j].check < w.start + 1_000_000_000
    ensures Final(cs[..i], w) == Window(w.start, w.count + i)
  {
    if i > 0 {
      assert cs[..i][1..] == cs[1..][..i - 1];
      CountsWithin(cs[1..], Window(w.start, w.count + 1), i - 1);
    }
  }

  /** In a window that has just been made, the first `rps` calls are admitted and no other. */
  lemma FirstCallsAdmitted(cs: seq<Call>, start: nat, rps: nat, i: nat)
    requires i < |cs| && forall j :: 0 <= j < |cs| ==> cs[j].check < start + 1_000_000_000
    ensures Allowed(rps, Final(cs[..i], Window(start, 0)), cs[i]) <==> i < rps || (rps == 0 && i == 0)
  {
    CountsWithin(cs, Window(start, 0), i);
  }

  /**
   A call a second or more into any window opens the next, at its second reading; it and the `rps - 1` calls
   that follow it within a second of that are admitted, and no other.
   */
  lemma FirstCallsAfterResetAdmitted(cs: seq<Call>, w: Window, rps: nat, i: nat)
    requires i < |cs| && cs[0].check >= w.start + 1_000_000_000
    requires forall j :: 0 < j < |cs| ==> cs[j].check < cs[0].reset + 1_000_000_000
    ensures Allowed(rps, Final(cs[..i], w), cs[i]) <==> i < rps || (rps == 0 && i == 0)
  {
    if i > 0 {
      assert cs[..i][1..] == cs[1..][..i - 1];
      CountsWithin(cs[1..], Window(cs[0].reset, 1), i - 1);
    }
  }
}
