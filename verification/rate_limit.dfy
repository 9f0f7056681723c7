/**
 backend/rateLimit.go: per-IP bookkeeping in one map: the times of recent
 accepted updates (a sliding window of 10 per 5 seconds), swept after 10
 idle minutes, and a count of open connections capped at 3.
 */
module RateLimit {
  import opened SlidingWindow

  /** Go's `time.Time` as nanoseconds. */
  const Second: int := 1_000_000_000
  const Window: int := 5 * Second
  const MaxUpdates: nat := 10
  const IdleExpiry: int := 10 * 60 * Second
  const MaxConnections: int := 3

  /** One IP's `RateLimitData`; the mutex is left out. */
  datatype RateLimitData = RateLimitData(timestamps: seq<int>, clientCount: int)

  /** The `rateLimits` map, keyed by IP. */
  type Limits = map<string, RateLimitData>

  /** What `LoadOrStore(ip, &RateLimitData{})` yields. */
  function Lookup(l: Limits, ip: string): (d: RateLimitData)
    ensures ip in l ==> d == l[ip]
    ensures ip !in l ==> d == RateLimitData([], 0)
  {
    if ip in l then l[ip] else RateLimitData([], 0)
  }

  /**
   `checkRateLimit`: the IP's timestamps are cut to those later than
   `now - 5s`; with ten or more of them left the update is refused and the cut
   list stored, otherwise `now` is appended and the update accepted. The
   connection count and every other IP stay as they were.
   */
  function CheckRateLimit(l: Limits, ip: string, now: int): (r: (Limits, bool))
    ensures ip in r.0
    ensures r.1 <==> |Recent(Lookup(l, ip).timestamps, now - Window)| < MaxUpdates
    ensures !r.1 ==> r.0[ip].timestamps == Recent(Lookup(l, ip).timestamps, now - Window)
    ensures r.1 ==> r.0[ip].timestamps == Recent(Lookup(l, ip).timestamps, now - Window) + [now]
    ensures r.0[ip].clientCount == Lookup(l, ip).clientCount
    ensures forall other :: other != ip ==> (other in r.0 <==> other in l)
    ensures forall other :: other != ip && other in l ==> r.0[other] == l[other]
  {
    var d := Lookup(l, ip);
    var step := WindowStep(d.timestamps, now, Window, MaxUpdates, true);
    (l[ip := d.(timestamps := step.0)], step.1)
  }

  /** Every IP keeps at most ten timestamps. */
  predicate Bounded(l: Limits) {
    forall ip :: ip in l ==> |l[ip].timestamps| <= MaxUpdates
  }

  lemma CheckRateLimitBounded(l: Limits, ip: string, now: int)
    requires Bounded(l)
    ensures Bounded(CheckRateLimit(l, ip, now).0)
  {
  }

  /** The updates `CheckRateLimit` accepts for `ip` over successive calls at `times`. */
  function AcceptedCalls(l: Limits, ip: string, times: seq<int>): seq<int>
    decreases |times|
  {
    if |times| == 0 then []
    else
      var (next, ok) := CheckRateLimit(l, ip, times[0]);
      var rest := AcceptedCalls(next, ip, times[1..]);
      if ok then [times[0]] + rest else rest
  }

  /** For one IP, the calls behave as a window limiter of ten per five seconds that prunes on refusal. */
  lemma {:induction false} AcceptedCallsWindow(l: Limits, ip: string, times: seq<int>)
    ensures AcceptedCalls(l, ip, times) == WindowAccepted(Lookup(l, ip).timestamps, times, Window, MaxUpdates, true)
    decreases |times|
  {
    if |times| > 0 {
      var next := CheckRateLimit(l, ip, times[0]).0;
      AcceptedCallsWindow(next, ip, times[1..]);
    }
  }

  /**
   With a clock that never goes back, no five-second span holds more than ten
   accepted updates from an IP that starts with no timestamps: the tenth
   accepted update after any accepted update comes at least five seconds
   after it.
   */
  lemma AtMostTenPerWindow(l: Limits, ip: string, times: seq<int>, i: nat)
    requires Lookup(l, ip).timestamps == []
    requires Sorted(times)
    requires i + MaxUpdates < |AcceptedCalls(l, ip, times)|
    ensures AcceptedCalls(l, ip, times)[i + MaxUpdates] - AcceptedCalls(l, ip, times)[i] >= Window
  {
    AcceptedCallsWindow(l, ip, times);
    LimitPerWindow(times, Window, MaxUpdates, true, i);
  }

  /**
   The window lives only as long as the IP's entry: when the last connection
   disconnects, the entry goes with its timestamps, so after a reconnect the
   next update is accepted however many were accepted just before.
   */
  lemma DisconnectResetsWindow(l: Limits, ip: string, now: int)
    requires Lookup(l, ip).clientCount == 1
    ensures var gone := CheckAndUpdateClientCount(l, ip, false).0;
            var back := CheckAndUpdateClientCount(gone, ip, true).0;
            && ip !in gone
            && back[ip] == RateLimitData([], 1)
            && CheckRateLimit(back, ip, now).1
  {
  }

  /**
   A concrete run: ten updates accepted at 0..9 ns fill the window and the
   eleventh at 10 ns is refused; after the IP's only connection disconnects
   and reconnects, an update at 10 ns is accepted, eleven within 10 ns.
   */
  lemma ElevenInOneWindow(ip: string)
    ensures var full := map[ip := RateLimitData([0, 1, 2, 3, 4, 5, 6, 7, 8, 9], 1)];
            var gone := CheckAndUpdateClientCount(full, ip, false).0;
            var back := CheckAndUpdateClientCount(gone, ip, true).0;
            && !CheckRateLimit(full, ip, 10).1
            && CheckRateLimit(back, ip, 10).1
  {
    RecentAll([0, 1, 2, 3, 4, 5, 6, 7, 8, 9], 10 - Window);
  }

  /** An entry the sweep removes: no timestamps, or a last one over ten minutes old. */
  predicate Idle(d: RateLimitData, now: int) {
    |d.timestamps| == 0 || d.timestamps[|d.timestamps| - 1] < now - IdleExpiry
  }

  /** `cleanupRateLimits`: deletes exactly the idle entries and keeps the rest as they are. */
  function CleanupRateLimits(l: Limits, now: int): (r: Limits)
    ensures forall ip :: ip in r <==> ip in l && !Idle(l[ip], now)
    ensures forall ip :: ip in r ==> r[ip] == l[ip]
  {
    map ip | ip in l && !Idle(l[ip], now) :: l[ip]
  }

  /** A second sweep at the same time removes nothing more. */
  lemma CleanupIdempotent(l: Limits, now: int)
    ensures CleanupRateLimits(CleanupRateLimits(l, now), now) == CleanupRateLimits(l, now)
  {
  }

  /** An IP whose update was just accepted survives any sweep in the next ten minutes. */
  lemma AcceptedSurvivesSweep(l: Limits, ip: string, now: int, later: int)
    requires CheckRateLimit(l, ip, now).1
    requires later <= now + IdleExpiry
    ensures ip in CleanupRateLimits(CheckRateLimit(l, ip, now).0, later)
  {
  }

  /**
   The sweep also removes the connection count of an IP that has open
   connections but never drew, after which a disconnect leaves -1.
   */
  lemma SweepForgetsConnections(ip: string, now: int)
    ensures var l := CleanupRateLimits(map[ip := RateLimitData([], 2)], now);
            && ip !in l
            && CheckAndUpdateClientCount(l, ip, false).0[ip].clientCount == -1
  {
  }

  /**
   `checkAndUpdateClientCount`: an increment at three or more connections is
   refused and changes nothing, otherwise it adds one; a decrement always
   succeeds, subtracts one and deletes the entry exactly when that leaves 0.
   */
  function CheckAndUpdateClientCount(l: Limits, ip: string, increment: bool): (r: (Limits, bool))
    ensures increment && Lookup(l, ip).clientCount >= MaxConnections ==> r == (l, false)
    ensures increment && Lookup(l, ip).clientCount < MaxConnections ==>
              && r.1 && ip in r.0
              && r.0[ip] == Lookup(l, ip).(clientCount := Lookup(l, ip).clientCount + 1)
    ensures !increment ==> r.1
    ensures !increment ==> (ip in r.0 <==> Lookup(l, ip).clientCount != 1)
    ensures !increment && ip in r.0 ==> r.0[ip] == Lookup(l, ip).(clientCount := Lookup(l, ip).clientCount - 1)
    ensures forall other :: other != ip ==> (other in r.0 <==> other in l)
    ensures forall other :: other != ip && other in l ==> r.0[other] == l[other]
  {
    var d := Lookup(l, ip);
    if increment then
      if d.clientCount >= MaxConnections then
        assert l[ip := d] == l;
        (l[ip := d], false)
      else (l[ip := d.(clientCount := d.clientCount + 1)], true)
    else
      var n := d.clientCount - 1;
      if n == 0 then (l - {ip}, true)
      else (l[ip := d.(clientCount := n)], true)
  }

  /** Counts never exceed three. */
  predicate CountsCapped(l: Limits) {
    forall ip :: ip in l ==> l[ip].clientCount <= MaxConnections
  }

  lemma ClientCountCapped(l: Limits, ip: string, increment: bool)
    requires CountsCapped(l)
    ensures CountsCapped(CheckAndUpdateClientCount(l, ip, increment).0)
  {
  }

  /**
   A connect followed by its disconnect restores the map, unless the entry
   held timestamps and no connections, in which case the disconnect deletes
   the entry together with its timestamps.
   */
  lemma ConnectDisconnect(l: Limits, ip: string)
    requires CheckAndUpdateClientCount(l, ip, true).1
    ensures var back := CheckAndUpdateClientCount(CheckAndUpdateClientCount(l, ip, true).0, ip, false).0;
            && (ip !in l || l[ip].clientCount != 0 ==> back == l)
            && (ip in l && l[ip].clientCount == 0 ==> back == l - {ip})
  {
  }

  /** A disconnect with no entry, or one at count 0, leaves -1 in place. */
  lemma DisconnectWithoutConnect(l: Limits, ip: string)
    requires Lookup(l, ip).clientCount == 0
    ensures var r := CheckAndUpdateClientCount(l, ip, false).0;
            ip in r && r[ip].clientCount == -1
  {
  }
}
