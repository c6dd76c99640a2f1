/**
 * The sliding-window rate limiters. They drop old timestamps, and one prunes stale keys, yet on a clock
 * that never steps back both decide like a limiter that remembers every request it accepted.
 */
module RateLimiting {

  const PRUNE_ABOVE := 10000

  datatype Config = Config(maxRequests: int, window: real)

  type Table = map<string, seq<real>>

  /** The timestamps less than a window old. */
  function Recent(times: seq<real>, now: real, window: real): (r: seq<real>)
    ensures |r| <= |times|
  {
    if times == [] then []
    else
      var before := Recent(times[..|times| - 1], now, window);
      if now - times[|times| - 1] < window then before + [times[|times| - 1]] else before
  }

  function TimesOf(table: Table, key: string): seq<real> {
    if key in table then table[key] else []
  }

  predicate Allows(c: Config, times: seq<real>, now: real) {
    |Recent(times, now, c.window)| < c.maxRequests
  }

  /** The table without the keys that have no recent timestamp, once it is large. */
  function Prune(c: Config, table: Table, now: real): Table {
    if |table| > PRUNE_ABOVE then map k | k in table && Recent(table[k], now, c.window) != [] :: table[k] else table
  }

  /** The table after a request, without pruning. */
  function Noted(c: Config, table: Table, key: string, now: real): Table {
    var recent := Recent(TimesOf(table, key), now, c.window);
    table[key := if |recent| < c.maxRequests then recent + [now] else recent]
  }

  /** The table after `check`: only an accepted request prunes. */
  function Checked(c: Config, table: Table, key: string, now: real): Table {
    if Allows(c, TimesOf(table, key), now) then Prune(c, Noted(c, table, key, now), now) else Noted(c, table, key, now)
  }

  method FilterRecent(times: seq<real>, now: real, window: real) returns (recent: seq<real>)
    ensures recent == Recent(times, now, window)
  {
    recent := [];
    for i := 0 to |times|
      invariant recent == Recent(times[..i], now, window)
    {
      assert times[..i + 1][..i] == times[..i];
      if now - times[i] < window {
        recent := recent + [times[i]];
      }
    }
    assert times[..|times|] == times;
  }

  /** The pruning loop: keys without a recent timestamp are deleted one by one. */
  method DeleteStale(table: Table, now: real, window: real) returns (kept: Table)
    ensures kept == map k | k in table && Recent(table[k], now, window) != [] :: table[k]
  {
    hide Recent;
    kept := table;
    var toDelete := set k | k in table && Recent(table[k], now, window) == [];
    while toDelete != {}
      invariant forall k :: k in toDelete ==> k in table && Recent(table[k], now, window) == []
      invariant forall k :: k in kept <==> k in table && (k in toDelete || Recent(table[k], now, window) != [])
      invariant forall k :: k in kept ==> kept[k] == table[k]
      decreases toDelete
    {
      var k :| k in toDelete;
      kept := kept - {k};
      toDelete := toDelete - {k};
    }
  }

  class RateLimiter {
    const config: Config
    var requests: Table

    constructor (maxRequests: int, windowSeconds: real)
      ensures config == Config(maxRequests, windowSeconds) && requests == map[]
    {
      config := Config(maxRequests, windowSeconds);
      requests := map[];
    }

    /** `RateLimiter.check` at the given clock reading. */
    method Check(key: string, now: real) returns (accepted: bool)
      modifies this
      ensures accepted == Allows(config, TimesOf(old(requests), key), now)
      ensures requests == Checked(config, old(requests), key, now)
    {
      hide Recent;
      var recent := FilterRecent(TimesOf(requests, key), now, config.window);
      if |recent| >= config.maxRequests {
        requests := requests[key := recent];
        return false;
      }
      requests := requests[key := recent + [now]];
      if |requests| > PRUNE_ABOVE {
        requests := DeleteStale(requests, now, config.window);
      }
      return true;
    }
  }

  /** The limiter of the CPIP middleware: the same window, never pruned. */
  class CpipLimiter {
    const config: Config
    var counts: Table

    constructor (rateLimit: int, rateWindow: real)
      ensures config == Config(rateLimit, rateWindow) && counts == map[]
    {
      config := Config(rateLimit, rateWindow);
      counts := map[];
    }

    /** `_check_rate_limit` at the given clock reading. */
    method CheckRateLimit(addr: string, now: real) returns (accepted: bool)
      modifies this
      ensures accepted == Allows(config, TimesOf(old(counts), addr), now)
      ensures counts == Noted(config, old(counts), addr, now)
    {
      var recent := FilterRecent(TimesOf(counts, addr), now, config.window);
      if |recent| >= config.maxRequests {
        counts := counts[addr := recent];
        return false;
      }
      counts := counts[addr := recent + [now]];
      return true;
    }
  }

  // ----- runs -----

  datatype Call = Call(key: string, time: real)

  /** Which of the two limiters: the one that prunes its table, or the plain one of the middleware. */
  datatype Limiter = Pruning | Plain

  /** The limiter's table behind the first `n` calls of a run. */
  function TableAt(l: Limiter, c: Config, calls: seq<Call>, n: nat): Table
    requires n <= |calls|
  {
    if n == 0 then map[] else
      var table, call := TableAt(l, c, calls, n - 1), calls[n - 1];
      match l
      case Pruning => Checked(c, table, call.key, call.time)
      case Plain => Noted(c, table, call.key, call.time)
  }

  /** The limiter's decision on the n-th call of a run. */
  predicate AcceptsAt(l: Limiter, c: Config, calls: seq<Call>, n: nat)
    requires n < |calls|
  {
    Allows(c, TimesOf(TableAt(l, c, calls, n), calls[n].key), calls[n].time)
  }

  predicate AcceptsFor(l: Limiter, c: Config, calls: seq<Call>, key: string, n: nat)
    requires n < |calls|
  {
    calls[n].key == key && AcceptsAt(l, c, calls, n)
  }

  /** The times at which the limiter accepted requests of a key among the first `n` calls. */
  function Accepted(l: Limiter, c: Config, calls: seq<Call>, key: string, n: nat): (r: seq<real>)
    requires n <= |calls|
  {
    if n == 0 then []
    else if AcceptsFor(l, c, calls, key, n - 1) then Accepted(l, c, calls, key, n - 1) + [calls[n - 1].time]
    else Accepted(l, c, calls, key, n - 1)
  }

  lemma {:induction false} RecentAppend(times: seq<real>, t: real, now: real, window: real)
    ensures Recent(times + [t], now, window) ==
            if now - t < window then Recent(times, now, window) + [t] else Recent(times, now, window)
  {
    assert (times + [t])[..|times|] == times;
  }

  // ----- which timestamps a table still holds, whatever the clock does -----

  /** The n-th call ends with a pruning that deletes the key. */
  predicate PrunesAway(l: Limiter, c: Config, calls: seq<Call>, key: string, n: nat)
    requires n < |calls|
  {
    var table, call := TableAt(l, c, calls, n), calls[n];
    var noted := Noted(c, table, call.key, call.time);
    && l.Pruning? && AcceptsAt(l, c, calls, n) && |noted| > 10000
    && Recent(TimesOf(noted, key), call.time, c.window) == []
  }

  /** The n-th call drops the timestamp of the i-th: that one is stale, and its key is asked for later or pruned. */
  predicate Drops(l: Limiter, c: Config, calls: seq<Call>, n: nat, i: nat)
    requires i <= n < |calls|
  {
    && calls[n].time - calls[i].time >= c.window
    && ((i < n && calls[n].key == calls[i].key) || PrunesAway(l, c, calls, calls[i].key, n))
  }

  /** No call before the n-th has dropped the timestamp of the i-th. */
  predicate Survives(l: Limiter, c: Config, calls: seq<Call>, i: nat, n: nat)
    requires i < n <= |calls|
  {
    forall j :: i <= j < n ==> !Drops(l, c, calls, j, i)
  }

  /** The accepted times of a key among the first `m` calls that survive up to the n-th. */
  function Survivors(l: Limiter, c: Config, calls: seq<Call>, key: string, m: nat, n: nat): seq<real>
    requires m <= n <= |calls|
  {
    if m == 0 then []
    else if AcceptsFor(l, c, calls, key, m - 1) && Survives(l, c, calls, m - 1, n) then
      Survivors(l, c, calls, key, m - 1, n) + [calls[m - 1].time]
    else Survivors(l, c, calls, key, m - 1, n)
  }

  lemma {:induction false} NothingYet(l: Limiter, c: Config, calls: seq<Call>, key: string, n: nat, now: real)
    requires n <= |calls|
    ensures TimesOf(TableAt(l, c, calls, 0), key) == []
    ensures Accepted(l, c, calls, key, 0) == []
    ensures Survivors(l, c, calls, key, 0, n) == []
    ensures Recent([], now, c.window) == []
  {
  }

  lemma {:induction false} AcceptedNext(l: Limiter, c: Config, calls: seq<Call>, key: string, n: nat)
    requires n < |calls|
    ensures var before := Accepted(l, c, calls, key, n);
            Accepted(l, c, calls, key, n + 1) ==
            if AcceptsFor(l, c, calls, key, n) then before + [calls[n].time] else before
  {
    hide AcceptsFor;
  }

  lemma {:induction false} SurvivorsNext(l: Limiter, c: Config, calls: seq<Call>, key: string, m: nat, n: nat)
    requires m < n <= |calls|
    ensures var before := Survivors(l, c, calls, key, m, n);
            Survivors(l, c, calls, key, m + 1, n) ==
            if AcceptsFor(l, c, calls, key, m) && Survives(l, c, calls, m, n) then before + [calls[m].time] else before
  {
    hide AcceptsFor, Survives;
  }

  /** The n-th call looks through the timestamps of the key. */
  predicate Looks(l: Limiter, c: Config, calls: seq<Call>, key: string, n: nat)
    requires n < |calls|
  {
    calls[n].key == key || PrunesAway(l, c, calls, key, n)
  }

  lemma {:induction false} DropsIfLooking(l: Limiter, c: Config, calls: seq<Call>, key: string, i: nat, n: nat)
    requires i < n < |calls| && AcceptsFor(l, c, calls, key, i)
    ensures Drops(l, c, calls, n, i) <==> Looks(l, c, calls, key, n) && calls[n].time - calls[i].time >= c.window
  {
    hide AcceptsAt, PrunesAway;
  }

  lemma {:induction false} SurvivesStep(l: Limiter, c: Config, calls: seq<Call>, i: nat, n: nat)
    requires i < n < |calls|
    ensures Survives(l, c, calls, i, n + 1) <==> Survives(l, c, calls, i, n) && !Drops(l, c, calls, n, i)
  {
  }

  lemma {:induction false} KeepStep(
    before: seq<real>, after: seq<real>, t: real, now: real, window: real, survives: bool, stays: bool, looks: bool)
    requires after == if looks then Recent(before, now, window) else before
    requires stays <==> survives && !(looks && now - t >= window)
    ensures var all := if survives then before + [t] else before;
            (if stays then after + [t] else after) == if looks then Recent(all, now, window) else all
  {
    RecentAppend(before, t, now, window);
  }

  /** One more call leaves the recent ones of a key's survivors if it looks through them, and all of them otherwise. */
  lemma {:induction false} SurvivorsStep(l: Limiter, c: Config, calls: seq<Call>, key: string, m: nat, n: nat)
    requires m <= n < |calls|
    ensures Survivors(l, c, calls, key, m, n + 1) ==
            if Looks(l, c, calls, key, n) then Recent(Survivors(l, c, calls, key, m, n), calls[n].time, c.window)
            else Survivors(l, c, calls, key, m, n)
  {
    hide AcceptsFor, Survives, Looks, Recent, Survivors;
    if m == 0 {
      NothingYet(l, c, calls, key, n, calls[n].time);
      NothingYet(l, c, calls, key, n + 1, calls[n].time);
    } else {
      var t, now, accepts := calls[m - 1].time, calls[n].time, AcceptsFor(l, c, calls, key, m - 1);
      SurvivorsNext(l, c, calls, key, m - 1, n);
      SurvivorsNext(l, c, calls, key, m - 1, n + 1);
      SurvivorsStep(l, c, calls, key, m - 1, n);
      SurvivesStep(l, c, calls, m - 1, n);
      if accepts {
        DropsIfLooking(l, c, calls, key, m - 1, n);
      }
      KeepStep(
        Survivors(l, c, calls, key, m - 1, n), Survivors(l, c, calls, key, m - 1, n + 1), t, now, c.window,
        accepts && Survives(l, c, calls, m - 1, n), accepts && Survives(l, c, calls, m - 1, n + 1),
        Looks(l, c, calls, key, n));
    }
  }

  /** A key's times behind the n-th call, before any pruning, from those before it. */
  function NotedTimes(l: Limiter, c: Config, calls: seq<Call>, key: string, n: nat, before: seq<real>): seq<real>
    requires n < |calls|
  {
    var now := calls[n].time;
    if AcceptsFor(l, c, calls, key, n) then Recent(before, now, c.window) + [now]
    else if calls[n].key == key then Recent(before, now, c.window)
    else before
  }

  lemma {:induction false} TableStep(l: Limiter, c: Config, calls: seq<Call>, key: string, n: nat)
    requires n < |calls|
    ensures var noted := NotedTimes(l, c, calls, key, n, TimesOf(TableAt(l, c, calls, n), key));
            && TimesOf(TableAt(l, c, calls, n + 1), key) == (if PrunesAway(l, c, calls, key, n) then [] else noted)
            && (PrunesAway(l, c, calls, key, n) ==> Recent(noted, calls[n].time, c.window) == [])
  {
    hide Recent;
    var table, call := TableAt(l, c, calls, n), calls[n];
    var noted := Noted(c, table, call.key, call.time);
    assert TimesOf(noted, key) ==
      if AcceptsFor(l, c, calls, key, n) then Recent(TimesOf(table, key), call.time, c.window) + [call.time]
      else if call.key == key then Recent(TimesOf(table, key), call.time, c.window)
      else TimesOf(table, key);
  }

  /** The survivors behind one more call, in the same terms. */
  lemma {:induction false} SurvivorsWithLast(l: Limiter, c: Config, calls: seq<Call>, key: string, n: nat)
    requires n < |calls| && TimesOf(TableAt(l, c, calls, n), key) == Survivors(l, c, calls, key, n, n)
    ensures Survivors(l, c, calls, key, n + 1, n + 1) ==
            if PrunesAway(l, c, calls, key, n) then []
            else NotedTimes(l, c, calls, key, n, Survivors(l, c, calls, key, n, n))
  {
    hide TableAt, PrunesAway, AcceptsAt, Recent, Survives;
    var before, now := Survivors(l, c, calls, key, n, n), calls[n].time;
    SurvivorsStep(l, c, calls, key, n, n);
    TableStep(l, c, calls, key, n);
    if AcceptsFor(l, c, calls, key, n) {
      LastSurvives(l, c, calls, key, n);
    }
    assert Survivors(l, c, calls, key, n + 1, n + 1) ==
      if AcceptsFor(l, c, calls, key, n) && Survives(l, c, calls, n, n + 1) then
        Survivors(l, c, calls, key, n, n + 1) + [now]
      else Survivors(l, c, calls, key, n, n + 1);
    hide Survivors;
    if PrunesAway(l, c, calls, key, n) {
      RecentTwice(before, now, now, c.window);
      RecentAppend(Recent(before, now, c.window), now, now, c.window);
    }
  }

  /** An accepted call's own timestamp survives it unless the table is pruned and the window is not positive. */
  lemma {:induction false} LastSurvives(l: Limiter, c: Config, calls: seq<Call>, key: string, n: nat)
    requires n < |calls| && AcceptsFor(l, c, calls, key, n)
    ensures Survives(l, c, calls, n, n + 1) <==> !(c.window <= 0.0 && PrunesAway(l, c, calls, key, n))
  {
    hide AcceptsAt, PrunesAway;
    assert Survives(l, c, calls, n, n + 1) <==> !Drops(l, c, calls, n, n);
  }

  /**
   * Whatever the clock does, a table holds for a key exactly the accepted times that no call has dropped: a time is
   * dropped once the key is asked for, or pruned away, at a reading a window or more behind it.
   */
  lemma {:induction false} TableHoldsSurvivors(l: Limiter, c: Config, calls: seq<Call>, key: string, n: nat)
    requires n <= |calls|
    ensures TimesOf(TableAt(l, c, calls, n), key) == Survivors(l, c, calls, key, n, n)
  {
    hide TableAt, TimesOf, Survivors, PrunesAway, NotedTimes, Recent;
    if n == 0 {
      NothingYet(l, c, calls, key, 0, 0.0);
    } else {
      TableHoldsSurvivors(l, c, calls, key, n - 1);
      SurvivorsWithLast(l, c, calls, key, n - 1);
      TableStep(l, c, calls, key, n - 1);
    }
  }

  /** What is recent later was recent before. */
  lemma {:induction false} RecentTwice(times: seq<real>, now: real, later: real, window: real)
    requires now <= later
    ensures Recent(Recent(times, now, window), later, window) == Recent(times, later, window)
  {
    if times != [] {
      var t := times[|times| - 1];
      RecentTwice(times[..|times| - 1], now, later, window);
      RecentAppend(Recent(times[..|times| - 1], now, window), t, later, window);
    }
  }

  // ----- what forgetting changes -----

  /** How many of the first `m` calls of a key were accepted, then dropped, and would be recent again at `now`. */
  function Revived(l: Limiter, c: Config, calls: seq<Call>, key: string, m: nat, n: nat, now: real): nat
    requires m <= n <= |calls|
  {
    if m == 0 then 0
    else
      Revived(l, c, calls, key, m - 1, n, now)
      + if && AcceptsFor(l, c, calls, key, m - 1) && !Survives(l, c, calls, m - 1, n)
           && now - calls[m - 1].time < c.window then 1 else 0
  }

  lemma {:induction false} SplitStep(
    accepted: seq<real>, survivors: seq<real>, revived: nat, t: real, now: real, window: real, accepts: bool, survives: bool)
    requires |Recent(accepted, now, window)| == |Recent(survivors, now, window)| + revived
    ensures |Recent(if accepts then accepted + [t] else accepted, now, window)| ==
            |Recent(if accepts && survives then survivors + [t] else survivors, now, window)|
            + revived + if accepts && !survives && now - t < window then 1 else 0
  {
    RecentAppend(accepted, t, now, window);
    RecentAppend(survivors, t, now, window);
  }

  lemma {:induction false} RecentSplit(l: Limiter, c: Config, calls: seq<Call>, key: string, m: nat, n: nat, now: real)
    requires m <= n <= |calls|
    ensures |Recent(Accepted(l, c, calls, key, m), now, c.window)| ==
            |Recent(Survivors(l, c, calls, key, m, n), now, c.window)| + Revived(l, c, calls, key, m, n, now)
  {
    hide AcceptsFor, Survives, Recent, Accepted, Survivors;
    if m == 0 {
      NothingYet(l, c, calls, key, n, now);
    } else {
      AcceptedNext(l, c, calls, key, m - 1);
      SurvivorsNext(l, c, calls, key, m - 1, n);
      RecentSplit(l, c, calls, key, m - 1, n, now);
      SplitStep(
        Accepted(l, c, calls, key, m - 1), Survivors(l, c, calls, key, m - 1, n), Revived(l, c, calls, key, m - 1, n, now),
        calls[m - 1].time, now, c.window, AcceptsFor(l, c, calls, key, m - 1), Survives(l, c, calls, m - 1, n));
    }
  }

  /**
   * Whatever the clock does, forgetting never refuses a request that the full history of accepted ones would allow;
   * it accepts one too many exactly when the maximum is only reached with dropped timestamps that are recent again.
   */
  lemma {:induction false} ForgettingAcceptsMore(l: Limiter, c: Config, calls: seq<Call>, n: nat)
    requires n < |calls|
    ensures var key, now := calls[n].key, calls[n].time;
            var recalled := |Recent(Accepted(l, c, calls, key, n), now, c.window)|;
            var revived := Revived(l, c, calls, key, n, n, now);
            && (recalled < c.maxRequests ==> AcceptsAt(l, c, calls, n))
            && (AcceptsAt(l, c, calls, n) && recalled >= c.maxRequests <==>
                recalled - revived < c.maxRequests <= recalled)
  {
    TableHoldsSurvivors(l, c, calls, calls[n].key, n);
    RecentSplit(l, c, calls, calls[n].key, n, n, calls[n].time);
  }

  /**
   * No call of the key among the first `n` reads a time before an earlier call: of the same key, or of any key if
   * the limiter prunes.
   */
  predicate InOrder(l: Limiter, calls: seq<Call>, key: string, n: nat)
    requires n <= |calls|
  {
    forall i, j :: 0 <= i < j < n && calls[j].key == key && (l.Pruning? || calls[i].key == key) ==>
                     calls[i].time <= calls[j].time
  }

  lemma {:induction false} NothingRevived(l: Limiter, c: Config, calls: seq<Call>, key: string, m: nat, n: nat)
    requires m <= n < |calls| && calls[n].key == key && InOrder(l, calls, key, n + 1)
    ensures Revived(l, c, calls, key, m, n, calls[n].time) == 0
  {
    if m > 0 {
      hide AcceptsAt, PrunesAway;
      NothingRevived(l, c, calls, key, m - 1, n);
      if calls[m - 1].key == key && !Survives(l, c, calls, m - 1, n) {
        var j :| m - 1 <= j < n && Drops(l, c, calls, j, m - 1);
        if calls[j].key != key {
          OnlyPruningPrunes(l, c, calls, key, j);
        }
        assert calls[j].time <= calls[n].time;
      }
    }
  }

  lemma {:induction false} OnlyPruningPrunes(l: Limiter, c: Config, calls: seq<Call>, key: string, n: nat)
    requires n < |calls| && PrunesAway(l, c, calls, key, n)
    ensures l.Pruning?
  {
  }

  lemma {:induction false} OrderOfFewer(l: Limiter, calls: seq<Call>, key: string, n: nat)
    requires 0 < n <= |calls| && InOrder(l, calls, key, n)
    ensures InOrder(l, calls, key, n - 1)
  {
  }

  /** If the clock has not stepped back for a call's key, the limiter decides on it as by its full history. */
  lemma {:induction false} DecidesByHistory(l: Limiter, c: Config, calls: seq<Call>, n: nat)
    requires n < |calls| && InOrder(l, calls, calls[n].key, n + 1)
    ensures AcceptsAt(l, c, calls, n) <==> Allows(c, Accepted(l, c, calls, calls[n].key, n), calls[n].time)
  {
    hide AcceptsAt, Revived, Recent;
    ForgettingAcceptsMore(l, c, calls, n);
    NothingRevived(l, c, calls, calls[n].key, n, n);
  }

  /** The times at which a limiter that forgets nothing accepts requests of a key among the first `n` calls. */
  function Remembered(c: Config, calls: seq<Call>, key: string, n: nat): seq<real>
    requires n <= |calls|
  {
    if n == 0 then []
    else
      var before, call := Remembered(c, calls, key, n - 1), calls[n - 1];
      if call.key == key && Allows(c, before, call.time) then before + [call.time] else before
  }

  /**
   * As long as the clock steps back for no call of a key, both limiters accept the requests of that key which a
   * limiter that forgets nothing accepts.
   */
  lemma {:induction false} LimitersRefineReference(l: Limiter, c: Config, calls: seq<Call>, key: string, n: nat)
    requires n <= |calls| && InOrder(l, calls, key, n)
    ensures Accepted(l, c, calls, key, n) == Remembered(c, calls, key, n)
  {
    if n > 0 {
      hide AcceptsAt, Revived, Recent, Allows, InOrder;
      assert InOrder(l, calls, key, n - 1) by { OrderOfFewer(l, calls, key, n); }
      LimitersRefineReference(l, c, calls, key, n - 1);
      if calls[n - 1].key == key {
        DecidesByHistory(l, c, calls, n - 1);
      }
    }
  }

  // ----- the bound over any window -----

  ghost predicate Ascending(times: seq<real>, limit: real) {
    && (forall i, j :: 0 <= i < j < |times| ==> times[i] <= times[j])
    && (forall i :: 0 <= i < |times| ==> times[i] <= limit)
  }

  /** If one of ascending times is recent then so are all behind it. */
  lemma {:induction false} RecentCount(times: seq<real>, i: nat, now: real, window: real)
    requires Ascending(times, now) && i < |times| && now - times[i] < window
    ensures |Recent(times, now, window)| >= |times| - i
  {
    if i < |times| - 1 {
      RecentCount(times[..|times| - 1], i, now, window);
    }
  }

  lemma {:induction false} AscendingGrows(times: seq<real>, t: real, limit: real)
    requires Ascending(times, t) && t <= limit
    ensures Ascending(times + [t], limit)
  {
  }

  lemma {:induction false} AcceptedAscending(l: Limiter, c: Config, calls: seq<Call>, key: string, n: nat, limit: real)
    requires n <= |calls| && InOrder(l, calls, key, n)
    requires forall i :: 0 <= i < n && calls[i].key == key ==> calls[i].time <= limit
    ensures Ascending(Accepted(l, c, calls, key, n), limit)
  {
    if n > 0 {
      hide AcceptsAt, Ascending;
      var t := calls[n - 1].time;
      if AcceptsFor(l, c, calls, key, n - 1) {
        AcceptedAscending(l, c, calls, key, n - 1, t);
        AscendingGrows(Accepted(l, c, calls, key, n - 1), t, limit);
      } else {
        AcceptedAscending(l, c, calls, key, n - 1, limit);
      }
    }
  }

  /** Any two times that are `maxRequests` places apart are at least a window apart. */
  ghost predicate Spaced(c: Config, times: seq<real>) {
    forall i, j :: 0 <= i < j < |times| && i + c.maxRequests <= j ==> times[j] - times[i] >= c.window
  }

  lemma {:induction false} SpacedGrows(c: Config, times: seq<real>, now: real)
    requires Spaced(c, times) && Ascending(times, now) && Allows(c, times, now)
    ensures Spaced(c, times + [now])
  {
    forall i | 0 <= i < |times| && i + c.maxRequests <= |times| ensures now - times[i] >= c.window {
      if now - times[i] < c.window {
        RecentCount(times, i, now, c.window);
      }
    }
  }

  /**
   * Of the requests of a key that a limiter accepted, any two that are `maxRequests` places apart are at least a
   * window apart, as long as the clock steps back for none of them: no span shorter than the window holds more
   * than `maxRequests`.
   */
  lemma {:induction false} AcceptedAreSpaced(l: Limiter, c: Config, calls: seq<Call>, key: string, n: nat)
    requires n <= |calls| && InOrder(l, calls, key, n)
    ensures Spaced(c, Accepted(l, c, calls, key, n))
    ensures c.maxRequests <= 0 ==> Accepted(l, c, calls, key, n) == []
  {
    if n > 0 {
      hide AcceptsAt, Spaced, Ascending;
      AcceptedAreSpaced(l, c, calls, key, n - 1);
      if AcceptsFor(l, c, calls, key, n - 1) {
        var before, now := Accepted(l, c, calls, key, n - 1), calls[n - 1].time;
        AcceptedAscending(l, c, calls, key, n - 1, now);
        DecidesByHistory(l, c, calls, n - 1);
        SpacedGrows(c, before, now);
      }
    }
  }

  // ----- a clock that steps back -----

  lemma {:induction false} RecentOne(t: real, now: real, window: real)
    ensures Recent([], now, window) == []
    ensures Recent([t], now, window) == if now - t < window then [t] else []
  {
    RecentAppend([], t, now, window);
    assert [] + [t] == [t];
  }

  lemma {:induction false} FirstAccepted(l: Limiter, c: Config, calls: seq<Call>, key: string)
    requires c.maxRequests > 0 && calls != [] && calls[0].key == key
    ensures TableAt(l, c, calls, 1) == map[key := [calls[0].time]]
    ensures Accepted(l, c, calls, key, 1) == [calls[0].time]
  {
    RecentOne(calls[0].time, calls[0].time, c.window);
    assert TableAt(l, c, calls, 0) == map[] && TimesOf(map[], key) == [];
    assert [] + [calls[0].time] == [calls[0].time];
    assert Accepted(l, c, calls, key, 0) == [];
  }

  lemma {:induction false} SecondDropsFirst(l: Limiter, c: Config, calls: seq<Call>, key: string)
    requires c.maxRequests > 1 && |calls| > 1 && calls[0].key == calls[1].key == key
    requires calls[1].time - calls[0].time >= c.window
    ensures TableAt(l, c, calls, 2) == map[key := [calls[1].time]]
    ensures Accepted(l, c, calls, key, 2) == [calls[0].time, calls[1].time]
  {
    var t, u := calls[0].time, calls[1].time;
    FirstAccepted(l, c, calls, key);
    RecentOne(t, u, c.window);
    assert TimesOf(map[key := [t]], key) == [t] && [] + [u] == [u];
    assert Noted(c, map[key := [t]], key, u) == map[key := [u]];
    assert [t] + [u] == [t, u];
  }

  /** Accepted at 0, accepted at 20, and on a window of 10 accepted again at 5, although the first two are recent then. */
  lemma {:induction false} SteppingBackForgets(l: Limiter, key: string)
    ensures var c, calls := Config(2, 10.0), [Call(key, 0.0), Call(key, 20.0), Call(key, 5.0)];
            && AcceptsAt(l, c, calls, 2)
            && Recent(Accepted(l, c, calls, key, 2), 5.0, c.window) == [0.0, 20.0]
            && Revived(l, c, calls, key, 2, 2, 5.0) == 1
  {
    var c, calls := Config(2, 10.0), [Call(key, 0.0), Call(key, 20.0), Call(key, 5.0)];
    FirstAccepted(l, c, calls, key);
    SecondDropsFirst(l, c, calls, key);
    RecentOne(0.0, 5.0, 10.0);
    RecentAppend([0.0], 20.0, 5.0, 10.0);
    RecentOne(20.0, 5.0, 10.0);
    assert [0.0] + [20.0] == [0.0, 20.0];
    RecentSplit(l, c, calls, key, 2, 2, 5.0);
    TableHoldsSurvivors(l, c, calls, key, 2);
  }
}
