/**
 * How long an address stays blacklisted. Over any run, whatever the clock does, an address is reported up to
 * the end of the term that its blacklisting in force has set, and the term is doubled for repeated probes.
 */
module BlacklistTerms {
  import opened Wrappers
  import opened Sorting
  import opened RateLimiting
  import opened Blacklist

  // ----- counting the probes of an address -----

  /** The operation makes all earlier probes of the address count no more. */
  predicate Forgives(t: Timed, addr: string) {
    t.operation == Clear || t.operation == Whitelist(addr)
  }

  /** The i-th operation probes the address, and none before the n-th forgives it or comes a window later for the address. */
  predicate IsHeld(l: Limits, run: seq<Timed>, addr: string, i: nat, n: nat)
    requires i < n <= |run|
  {
    && run[i].operation == Blacklist(addr)
    && forall k :: i < k < n ==>
         && !Forgives(run[k], addr)
         && (run[k].operation == Blacklist(addr) ==> run[k].time - run[i].time < l.rateWindow)
  }

  /** How many of the first `m` operations count as probes of the address at a clock reading, before the n-th. */
  function Strikes(l: Limits, run: seq<Timed>, addr: string, m: nat, n: nat, now: real): nat
    requires m <= n <= |run|
  {
    if m == 0 then 0
    else
      Strikes(l, run, addr, m - 1, n, now)
      + if IsHeld(l, run, addr, m - 1, n) && now - run[m - 1].time < l.rateWindow then 1 else 0
  }

  /** The term of the n-th operation, which blacklists the address: doubled if its probes exceed the limit, a day at most. */
  function Term(l: Limits, run: seq<Timed>, addr: string, n: nat): int
    requires n < |run|
  {
    var probes := Strikes(l, run, addr, n, n, run[n].time) + 1;
    var ttl := if probes > l.rateLimit then 2 * l.ttl else l.ttl;
    if ttl > 86400 then 86400 else ttl
  }

  function TermEnd(l: Limits, run: seq<Timed>, addr: string, n: nat): real
    requires n < |run|
  {
    run[n].time + Term(l, run, addr, n) as real
  }

  // ----- the table of probes -----

  function HeldTimes(l: Limits, run: seq<Timed>, addr: string, m: nat, n: nat): seq<real>
    requires m <= n <= |run|
  {
    if m == 0 then []
    else if IsHeld(l, run, addr, m - 1, n) then HeldTimes(l, run, addr, m - 1, n) + [run[m - 1].time]
    else HeldTimes(l, run, addr, m - 1, n)
  }

  lemma {:induction false} StrikesCountRecent(l: Limits, run: seq<Timed>, addr: string, m: nat, n: nat, now: real)
    requires m <= n <= |run|
    ensures Strikes(l, run, addr, m, n, now) == |Recent(HeldTimes(l, run, addr, m, n), now, l.rateWindow)|
  {
    hide IsHeld, Recent;
    if m == 0 {
      RecentNone(now, l.rateWindow);
    } else {
      StrikesCountRecent(l, run, addr, m - 1, n, now);
      RecentAppend(HeldTimes(l, run, addr, m - 1, n), run[m - 1].time, now, l.rateWindow);
    }
  }

  lemma {:induction false} RecentNone(now: real, window: real)
    ensures Recent([], now, window) == []
  {
  }

  lemma {:induction false} HeldOnwards(l: Limits, run: seq<Timed>, addr: string, i: nat, n: nat)
    requires i < n < |run|
    ensures IsHeld(l, run, addr, i, n + 1) <==>
            && IsHeld(l, run, addr, i, n)
            && !Forgives(run[n], addr)
            && (run[n].operation == Blacklist(addr) ==> run[n].time - run[i].time < l.rateWindow)
  {
  }

  /** What one more operation does to the held times. */
  lemma {:induction false} HeldTimesStep(l: Limits, run: seq<Timed>, addr: string, m: nat, n: nat)
    requires m <= n < |run|
    ensures HeldTimes(l, run, addr, m, n + 1) ==
            if Forgives(run[n], addr) then []
            else if run[n].operation == Blacklist(addr) then
              Recent(HeldTimes(l, run, addr, m, n), run[n].time, l.rateWindow)
            else HeldTimes(l, run, addr, m, n)
  {
    hide IsHeld, Recent;
    if m == 0 {
      RecentNone(run[n].time, l.rateWindow);
    } else {
      HeldTimesStep(l, run, addr, m - 1, n);
      HeldOnwards(l, run, addr, m - 1, n);
      RecentAppend(HeldTimes(l, run, addr, m - 1, n), run[m - 1].time, run[n].time, l.rateWindow);
    }
  }

  lemma {:induction false} StepAt(l: Limits, run: seq<Timed>, n: nat)
    requires n < |run|
    ensures StateAfter(l, run[..n + 1]) == Step(l, StateAfter(l, run[..n]), run[n])
  {
    assert run[..n + 1][..n] == run[..n];
  }

  lemma {:induction false} ProbesAreHeldTimes(l: Limits, run: seq<Timed>, addr: string, n: nat)
    requires n <= |run| && !IsLoopback(addr)
    ensures TimesOf(StateAfter(l, run[..n]).probes, addr) == HeldTimes(l, run, addr, n, n)
  {
    hide Recent, Evict, Queried, NewEntry, Put, Keep, IsLoopback;
    if n > 0 {
      ProbesAreHeldTimes(l, run, addr, n - 1);
      StepAt(l, run, n - 1);
      HeldTimesStep(l, run, addr, n - 1, n - 1);
      HeldNow(l, run, addr, n - 1);
      var before := StateAfter(l, run[..n - 1]);
      ProbesStep(l, before, run[n - 1], addr);
    }
  }

  lemma {:induction false} HeldNow(l: Limits, run: seq<Timed>, addr: string, n: nat)
    requires n < |run|
    ensures IsHeld(l, run, addr, n, n + 1) <==> run[n].operation == Blacklist(addr)
  {
  }

  lemma {:induction false} ProbesStep(l: Limits, s: State, t: Timed, addr: string)
    requires !IsLoopback(addr)
    ensures TimesOf(Step(l, s, t).probes, addr) ==
            if Forgives(t, addr) then []
            else if t.operation == Blacklist(addr) then Recent(TimesOf(s.probes, addr), t.time, l.rateWindow) + [t.time]
            else TimesOf(s.probes, addr)
  {
    hide Recent, Evict, Queried, NewEntry, Put, Keep;
  }

  // ----- the blacklisting in force -----

  /**
   * The operation that set the entry of an address before the n-th: the latest that blacklisted it, unless it was
   * whitelisted or cleared since, asked for after its term, or missing from the table behind a blacklisting.
   */
  function InForce(l: Limits, run: seq<Timed>, addr: string, n: nat): (r: Option<nat>)
    requires n <= |run|
    ensures r.Some? ==> r.value < n && run[r.value].operation == Blacklist(addr)
  {
    if n == 0 then None
    else
      var before := InForce(l, run, addr, n - 1);
      match run[n - 1].operation
      case Blacklist(other) =>
        if addr !in Addrs(StateAfter(l, run[..n]).table) then None
        else if other == addr then Some(n - 1)
        else before
      case Query(other) =>
        if other == addr && before.Some? && run[n - 1].time > TermEnd(l, run, addr, before.value) then None else before
      case Whitelist(other) => if other == addr then None else before
      case Clear => None
  }

  lemma {:induction false} FindPut(table: seq<Entry>, e: Entry, addr: string)
    ensures Find(Put(table, e), addr) == if e.addr == addr then [e] else Find(table, addr)
  {
    if table == [] {
      assert Put(table, e) == [e] && [e][1..] == [];
    } else if table[0].addr == e.addr {
      assert ([e] + table[1..])[1..] == table[1..];
    } else {
      assert ([table[0]] + Put(table[1..], e))[1..] == Put(table[1..], e);
      FindPut(table[1..], e, addr);
    }
  }

  lemma {:induction false} FindKeep(table: seq<Entry>, gone: set<string>, addr: string)
    ensures Find(Keep(table, gone), addr) == if addr in gone then [] else Find(table, addr)
  {
    if table != [] {
      FindKeep(table[1..], gone, addr);
      if table[0].addr in gone {
        assert [] + Keep(table[1..], gone) == Keep(table[1..], gone);
      } else {
        assert ([table[0]] + Keep(table[1..], gone))[1..] == Keep(table[1..], gone);
      }
    }
  }

  lemma {:induction false} FindEvicted(l: Limits, table: seq<Entry>, addr: string)
    ensures Find(Evict(l, table), addr) == if addr in Addrs(Evict(l, table)) then Find(table, addr) else []
  {
    hide Ranked, AddrSet, Addrs;
    FindIsMember(Evict(l, table), addr);
    if |table| > l.maxBlacklist {
      FindKeep(table, AddrSet(Ranked(table)[..|table| / 2]), addr);
    } else {
      FindIsMember(table, addr);
    }
  }

  /** The entry an operation leaves for an address. */
  lemma {:induction false} FindStep(l: Limits, s: State, t: Timed, addr: string)
    requires !IsLoopback(addr)
    ensures var after := Step(l, s, t).table;
            Find(after, addr) ==
            if Forgives(t, addr) then []
            else if t.operation.Blacklist? && addr !in Addrs(after) then []
            else if t.operation == Blacklist(addr) then [NewEntry(l, s.probes, addr, t.time)]
            else if t.operation == Query(addr) && Find(s.table, addr) != [] && t.time > Find(s.table, addr)[0].expires then []
            else Find(s.table, addr)
  {
    hide Addrs, Put, Keep, Evict, NewEntry, Recent, Find, IsLoopback;
    match t.operation
    case Blacklist(other) =>
      if IsLoopback(other) {
        FindIsMember(s.table, addr);
      } else {
        var e := NewEntry(l, s.probes, other, t.time);
        NewEntryFields(l, s.probes, other, t.time);
        FindEvicted(l, Put(s.table, e), addr);
        FindPut(s.table, e, addr);
      }
    case Query(other) => FindKeep(s.table, {other}, addr);
    case Whitelist(other) => FindKeep(s.table, {other}, addr);
    case Clear => FindNone(addr);
  }

  lemma {:induction false} FindNone(addr: string)
    ensures Find([], addr) == []
  {
  }

  lemma {:induction false} NewEntryFields(l: Limits, probes: Table, addr: string, now: real)
    ensures NewEntry(l, probes, addr, now).addr == addr
  {
  }

  lemma {:induction false} NewEntryTerm(l: Limits, run: seq<Timed>, addr: string, n: nat)
    requires n < |run| && !IsLoopback(addr)
    ensures NewEntry(l, StateAfter(l, run[..n]).probes, addr, run[n].time) ==
            Entry(addr, TermEnd(l, run, addr, n), Term(l, run, addr, n))
  {
    hide Recent, StateAfter, IsLoopback;
    ProbesAreHeldTimes(l, run, addr, n);
    StrikesCountRecent(l, run, addr, n, n, run[n].time);
  }

  /** Whatever the clock does, the table holds for an address the entry that its blacklisting in force has set. */
  lemma {:induction false} EntryInForce(l: Limits, run: seq<Timed>, addr: string, n: nat)
    requires n <= |run| && !IsLoopback(addr)
    ensures var j := InForce(l, run, addr, n);
            Find(StateAfter(l, run[..n]).table, addr) ==
            if j.None? then [] else [Entry(addr, TermEnd(l, run, addr, j.value), Term(l, run, addr, j.value))]
  {
    hide Find, Step, Addrs, NewEntry, Term, TermEnd, IsLoopback;
    if n == 0 {
      FindNone(addr);
    } else {
      EntryInForce(l, run, addr, n - 1);
      StepAt(l, run, n - 1);
      FindStep(l, StateAfter(l, run[..n - 1]), run[n - 1], addr);
      NewEntryTerm(l, run, addr, n - 1);
    }
  }

  /**
   * In every run, whatever the clock does, an address is reported exactly if a blacklisting of it is in force and its
   * term is not over; a loopback address never is.
   */
  lemma {:induction false} ReportedIff(l: Limits, run: seq<Timed>, addr: string, now: real)
    ensures Reports(StateAfter(l, run).table, addr, now) <==>
            && addr != "127.0.0.1" && addr != "::1" && addr != "localhost"
            && var j := InForce(l, run, addr, |run|);
               j.Some? && now <= TermEnd(l, run, addr, j.value)
  {
    hide Find, InForce, TermEnd, StateAfter;
    assert run[..|run|] == run;
    if !IsLoopback(addr) {
      EntryInForce(l, run, addr, |run|);
    }
  }

  /** No operation behind the j-th touches the entry it set, but for blacklistings that leave it in the table. */
  ghost predicate LeftAlone(l: Limits, run: seq<Timed>, addr: string, j: nat, n: nat)
    requires j < n <= |run|
  {
    && (forall k :: j <= k < n && run[k].operation.Blacklist? ==> addr in Addrs(StateAfter(l, run[..k + 1]).table))
    && forall k :: j < k < n ==>
         && run[k].operation != Blacklist(addr) && !Forgives(run[k], addr)
         && (run[k].operation == Query(addr) ==> run[k].time <= TermEnd(l, run, addr, j))
  }

  lemma {:induction false} StaysInForce(l: Limits, run: seq<Timed>, addr: string, j: nat, n: nat)
    requires j < n <= |run| && run[j].operation == Blacklist(addr) && LeftAlone(l, run, addr, j, n)
    ensures InForce(l, run, addr, n) == Some(j)
    decreases n
  {
    hide TermEnd, StateAfter, Addrs;
    assert run[n - 1].operation.Blacklist? ==> addr in Addrs(StateAfter(l, run[..n - 1 + 1]).table);
    if j < n - 1 {
      StaysInForce(l, run, addr, j, n - 1);
    }
  }

  /**
   * An address that is blacklisted, and then neither evicted, whitelisted, cleared, blacklisted again nor asked for
   * behind its term, is reported up to the end of its term and no longer.
   */
  lemma {:induction false} BlacklistedForItsTerm(l: Limits, run: seq<Timed>, addr: string, j: nat, now: real)
    requires addr != "127.0.0.1" && addr != "::1" && addr != "localhost"
    requires j < |run| && run[j].operation == Blacklist(addr) && LeftAlone(l, run, addr, j, |run|)
    ensures Reports(StateAfter(l, run).table, addr, now) <==> now <= run[j].time + Term(l, run, addr, j) as real
  {
    StaysInForce(l, run, addr, j, |run|);
    ReportedIff(l, run, addr, now);
  }

  /** On a clock that steps back for no probe of the address, the window alone decides which probes count. */
  lemma {:induction false} HeldInOrder(l: Limits, run: seq<Timed>, addr: string, i: nat, n: nat)
    requires i < n < |run| && run[i].operation == Blacklist(addr) && run[n].time - run[i].time < l.rateWindow
    requires forall k :: i < k < n && run[k].operation == Blacklist(addr) ==> run[k].time <= run[n].time
    ensures IsHeld(l, run, addr, i, n) <==> forall k :: i < k < n ==> !Forgives(run[k], addr)
  {
  }
}
