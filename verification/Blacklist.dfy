/**
 * The blacklist of the CPIP defence. The table is the sequence of its entries in insertion order, which
 * decides how the stable sort of an eviction ranks entries that expire together.
 */
module Blacklist {
  import opened Sorting
  import opened RateLimiting

  const MAX_TTL := 86400

  datatype Entry = Entry(addr: string, expires: real, ttl: int)

  datatype Limits = Limits(rateLimit: int, rateWindow: real, ttl: int, maxBlacklist: int)

  predicate IsLoopback(addr: string) {
    addr == "127.0.0.1" || addr == "::1" || addr == "localhost"
  }

  // ----- the table as an ordered dictionary -----

  function Addrs(table: seq<Entry>): (r: seq<string>)
    ensures |r| == |table| && forall i :: 0 <= i < |r| ==> r[i] == table[i].addr
  {
    if table == [] then [] else [table[0].addr] + Addrs(table[1..])
  }

  /** `table[addr] = entry`: an address that is present keeps its place. */
  function Put(table: seq<Entry>, e: Entry): (r: seq<Entry>)
  {
    if table == [] then [e]
    else if table[0].addr == e.addr then [e] + table[1..]
    else [table[0]] + Put(table[1..], e)
  }

  /** The entries whose address is not among `gone`. */
  function Keep(table: seq<Entry>, gone: set<string>): seq<Entry> {
    if table == [] then []
    else (if table[0].addr in gone then [] else [table[0]]) + Keep(table[1..], gone)
  }

  function ByExpiry(): (Entry, Entry) -> bool {
    (a: Entry, b: Entry) => a.expires <= b.expires
  }

  /** The entries ranked by expiry, those that expire together in insertion order. */
  function Ranked(table: seq<Entry>): (r: seq<Entry>)
    ensures multiset(r) == multiset(table) && |r| == |table|
  {
    var r := Sort(table, ByExpiry());
    SameElements(r, table);
    r
  }

  function AddrSet(entries: seq<Entry>): set<string> {
    set i | 0 <= i < |entries| :: entries[i].addr
  }

  /** The table after the half that expires first has been dropped, if it is too large. */
  function Evict(l: Limits, table: seq<Entry>): seq<Entry> {
    if |table| > l.maxBlacklist then Keep(table, AddrSet(Ranked(table)[..|table| / 2])) else table
  }

  function TtlFor(l: Limits, probes: nat): (ttl: int)
    ensures ttl <= MAX_TTL
  {
    var ttl := if probes > l.rateLimit then l.ttl * 2 else l.ttl;
    if ttl < MAX_TTL then ttl else MAX_TTL
  }

  function NewEntry(l: Limits, probes: Table, addr: string, now: real): Entry {
    var ttl := TtlFor(l, |Recent(TimesOf(probes, addr), now, l.rateWindow)| + 1);
    Entry(addr, now + ttl as real, ttl)
  }

  function Blacklisted(l: Limits, table: seq<Entry>, probes: Table, addr: string, now: real): seq<Entry> {
    if IsLoopback(addr) then table else Evict(l, Put(table, NewEntry(l, probes, addr, now)))
  }

  function Probed(l: Limits, probes: Table, addr: string, now: real): Table {
    if IsLoopback(addr) then probes else probes[addr := Recent(TimesOf(probes, addr), now, l.rateWindow) + [now]]
  }

  lemma {:induction false} KeepTwice(table: seq<Entry>, a: set<string>, b: set<string>)
    ensures Keep(Keep(table, a), b) == Keep(table, a + b)
  {
    if table != [] {
      KeepTwice(table[1..], a, b);
      if table[0].addr !in a {
        assert ([table[0]] + Keep(table[1..], a))[1..] == Keep(table[1..], a);
      } else {
        assert [] + Keep(table[1..], a) == Keep(table[1..], a);
      }
    }
  }

  lemma {:induction false} KeepAll(table: seq<Entry>)
    ensures Keep(table, {}) == table
  {
    if table != [] {
      KeepAll(table[1..]);
    }
  }

  /** The entry `dict.get` finds. */
  function Find(table: seq<Entry>, addr: string): seq<Entry> {
    if table == [] then [] else if table[0].addr == addr then [table[0]] else Find(table[1..], addr)
  }

  /** The table after `is_blacklisted`. */
  function Queried(table: seq<Entry>, addr: string, now: real): seq<Entry> {
    if !IsLoopback(addr) && Find(table, addr) != [] && now > Find(table, addr)[0].expires then Keep(table, {addr})
    else table
  }

  /** The answer of `is_blacklisted`. */
  predicate Reports(table: seq<Entry>, addr: string, now: real) {
    !IsLoopback(addr) && Find(table, addr) != [] && now <= Find(table, addr)[0].expires
  }

  lemma {:induction false} FindIsMember(table: seq<Entry>, addr: string)
    ensures Find(table, addr) == [] <==> addr !in Addrs(table)
    ensures |Find(table, addr)| <= 1
  {
    if table != [] && table[0].addr != addr {
      FindIsMember(table[1..], addr);
    }
  }

  /** The eviction loop of `blacklist_addr`. */
  method PopFirstHalf(table: seq<Entry>) returns (r: seq<Entry>)
    ensures r == Keep(table, AddrSet(Ranked(table)[..|table| / 2]))
  {
    var sortedAddrs := Ranked(table);
    r := table;
    KeepAll(table);
    assert AddrSet(sortedAddrs[..0]) == {};
    for i := 0 to |sortedAddrs| / 2
      invariant r == Keep(table, AddrSet(sortedAddrs[..i]))
    {
      KeepTwice(table, AddrSet(sortedAddrs[..i]), {sortedAddrs[i].addr});
      AddrSetSnoc(sortedAddrs, i);
      r := Keep(r, {sortedAddrs[i].addr});
    }
  }

  class ITFDefense {
    const limits: Limits
    var blacklist: seq<Entry>
    var probeCounts: Table

    constructor (limits: Limits)
      ensures this.limits == limits && blacklist == [] && probeCounts == map[]
    {
      this.limits := limits;
      blacklist := [];
      probeCounts := map[];
    }

    /** `blacklist_addr`. */
    method BlacklistAddr(addr: string, now: real)
      modifies this
      ensures blacklist == Blacklisted(limits, old(blacklist), old(probeCounts), addr, now)
      ensures probeCounts == Probed(limits, old(probeCounts), addr, now)
    {
      hide Keep, Put, Ranked, AddrSet, Recent, IsLoopback;
      if IsLoopback(addr) {
        return;
      }
      var counts := FilterRecent(TimesOf(probeCounts, addr), now, limits.rateWindow);
      counts := counts + [now];
      probeCounts := probeCounts[addr := counts];
      var ttl := limits.ttl;
      if |counts| > limits.rateLimit {
        ttl := ttl * 2;
      }
      if ttl > MAX_TTL {
        ttl := MAX_TTL;
      }
      blacklist := Put(blacklist, Entry(addr, now + ttl as real, ttl));
      if |blacklist| > limits.maxBlacklist {
        blacklist := PopFirstHalf(blacklist);
      }
    }

    /** `is_blacklisted`: an expired entry is deleted on the way. */
    method IsBlacklisted(addr: string, now: real) returns (r: bool)
      modifies this
      ensures probeCounts == old(probeCounts)
      ensures blacklist == Queried(old(blacklist), addr, now)
      ensures r <==> !IsLoopback(addr) && addr in Addrs(blacklist)
      ensures r <==> Reports(old(blacklist), addr, now)
    {
      if IsLoopback(addr) {
        return false;
      }
      var entry := Find(blacklist, addr);
      FindIsMember(blacklist, addr);
      if entry == [] {
        return false;
      }
      if now > entry[0].expires {
        KeepMembers(blacklist, {addr});
        blacklist := Keep(blacklist, {addr});
        return false;
      }
      return true;
    }

    /** `whitelist_addr`. */
    method WhitelistAddr(addr: string)
      modifies this
      ensures blacklist == Keep(old(blacklist), {addr}) && probeCounts == old(probeCounts) - {addr}
    {
      blacklist := Keep(blacklist, {addr});
      probeCounts := probeCounts - {addr};
    }

    /** `clear_blacklist`. */
    method ClearBlacklist()
      modifies this
      ensures blacklist == [] && probeCounts == map[]
    {
      blacklist := [];
      probeCounts := map[];
    }
  }

  lemma {:induction false} AddrSetSnoc(s: seq<Entry>, i: nat)
    requires i < |s|
    ensures AddrSet(s[..i + 1]) == AddrSet(s[..i]) + {s[i].addr}
  {
    assert s[..i + 1][i] == s[i];
    forall a | a in AddrSet(s[..i]) ensures a in AddrSet(s[..i + 1]) {
      var j :| 0 <= j < i && s[..i][j].addr == a;
      assert s[..i + 1][j].addr == a;
    }
    forall a | a in AddrSet(s[..i + 1]) ensures a in AddrSet(s[..i]) + {s[i].addr} {
      var j :| 0 <= j < i + 1 && s[..i + 1][j].addr == a;
      if j < i {
        assert s[..i][j].addr == a;
      }
    }
  }

  lemma {:induction false} KeepMembers(table: seq<Entry>, gone: set<string>)
    ensures forall e :: e in Keep(table, gone) <==> e in table && e.addr !in gone
    ensures forall a :: a in Addrs(Keep(table, gone)) <==> a in Addrs(table) && a !in gone
  {
    if table != [] {
      KeepMembers(table[1..], gone);
      var first, rest := if table[0].addr in gone then [] else [table[0]], Keep(table[1..], gone);
      AddrsAppend(first, rest);
    }
  }

  lemma {:induction false} AddrsAppend(xs: seq<Entry>, ys: seq<Entry>)
    ensures Addrs(xs + ys) == Addrs(xs) + Addrs(ys)
  {
    if xs == [] {
      assert xs + ys == ys;
    } else {
      assert (xs + ys)[1..] == xs[1..] + ys;
      AddrsAppend(xs[1..], ys);
    }
  }

  // ----- eviction -----

  lemma {:induction false} ByExpiryTotal()
    ensures TotalPreorder(ByExpiry())
  {
  }

  lemma {:induction false} SameSize<T>(s: seq<T>, t: seq<T>)
    requires NoDuplicates(s) && NoDuplicates(t) && forall x :: x in s <==> x in t
    ensures |s| == |t|
  {
    NoDuplicatesCount(s);
    NoDuplicatesCount(t);
    forall x ensures multiset(s)[x] == multiset(t)[x] {
      assert x in s <==> x in multiset(s);
      assert x in t <==> x in multiset(t);
    }
    assert multiset(s) == multiset(t);
    SameElements(s, t);
  }

  lemma {:induction false} DistinctAddrs(table: seq<Entry>)
    requires NoDuplicates(Addrs(table))
    ensures forall i, j :: 0 <= i < j < |table| ==> table[i].addr != table[j].addr
    ensures NoDuplicates(table)
  {
    forall i, j | 0 <= i < j < |table| ensures table[i].addr != table[j].addr {
      assert Addrs(table)[i] != Addrs(table)[j];
    }
  }

  lemma {:induction false} TailDistinct(table: seq<Entry>)
    requires table != [] && NoDuplicates(Addrs(table))
    ensures NoDuplicates(Addrs(table[1..])) && table[0].addr !in Addrs(table[1..])
  {
    var all, rest := Addrs(table), Addrs(table[1..]);
    assert all == [table[0].addr] + rest;
    assert forall i :: 0 <= i < |rest| ==> rest[i] == all[i + 1];
  }

  lemma {:induction false} AddrsCons(e: Entry, rest: seq<Entry>)
    ensures Addrs([e] + rest) == [e.addr] + Addrs(rest)
  {
    assert ([e] + rest)[1..] == rest;
  }

  lemma {:induction false} KeepDistinct(table: seq<Entry>, gone: set<string>)
    requires NoDuplicates(Addrs(table))
    ensures NoDuplicates(Addrs(Keep(table, gone)))
  {
    hide Addrs;
    if table != [] {
      var rest := Keep(table[1..], gone);
      TailDistinct(table);
      KeepDistinct(table[1..], gone);
      KeepMembers(table[1..], gone);
      if table[0].addr in gone {
        assert [] + rest == rest;
      } else {
        AddrsCons(table[0], rest);
      }
    }
  }

  lemma {:induction false} DropMembers<T>(s: seq<T>, k: nat)
    requires k <= |s|
    ensures forall i :: k <= i < |s| ==> s[i] in s[k..]
    ensures forall x :: x in s[k..] ==> exists i :: k <= i < |s| && s[i] == x
  {
    forall i | k <= i < |s| ensures s[i] in s[k..] {
      assert s[k..][i - k] == s[i];
    }
    forall x | x in s[k..] ensures exists i :: k <= i < |s| && s[i] == x {
      var i :| 0 <= i < |s[k..]| && s[k..][i] == x;
      assert s[i + k] == x;
    }
  }

  /** Entries with distinct addresses are ranked with distinct addresses. */
  lemma {:induction false} RankedFacts(table: seq<Entry>)
    requires NoDuplicates(Addrs(table))
    ensures var r := Ranked(table);
            && Sorted(r, ByExpiry())
            && NoDuplicates(r)
            && (forall e :: e in r <==> e in table)
            && forall i, j :: 0 <= i < |r| && 0 <= j < |r| && r[i].addr == r[j].addr ==> i == j
  {
    var r := Ranked(table);
    ByExpiryTotal();
    SortSorted(table, ByExpiry());
    DistinctAddrs(table);
    SortNoDuplicates(table, ByExpiry());
    SameElements(r, table);
    forall i, j | 0 <= i < |r| && 0 <= j < |r| && r[i].addr == r[j].addr ensures i == j {
      assert r[i] in table && r[j] in table;
      var m :| 0 <= m < |table| && table[m] == r[i];
      var n :| 0 <= n < |table| && table[n] == r[j];
      assert m == n;
    }
  }

  /** With distinct addresses the first `k` addresses are those of the first `k` entries alone. */
  lemma {:induction false} FirstAddrs(r: seq<Entry>, k: nat)
    requires k <= |r|
    requires forall i, j :: 0 <= i < |r| && 0 <= j < |r| && r[i].addr == r[j].addr ==> i == j
    ensures forall i :: 0 <= i < |r| ==> (r[i].addr in AddrSet(r[..k]) <==> i < k)
  {
    forall i | 0 <= i < |r| ensures r[i].addr in AddrSet(r[..k]) <==> i < k {
      if i < k {
        assert r[..k][i] == r[i];
      }
      if r[i].addr in AddrSet(r[..k]) {
        var j :| 0 <= j < k && r[..k][j].addr == r[i].addr;
        assert r[j].addr == r[i].addr;
      }
    }
  }

  /** What is kept is the ranking behind its first `k` entries. */
  lemma {:induction false} KeptMembers(table: seq<Entry>, r: seq<Entry>, k: nat, kept: seq<Entry>)
    requires k <= |r|
    requires forall e :: e in r <==> e in table
    requires forall i :: 0 <= i < |r| ==> (r[i].addr in AddrSet(r[..k]) <==> i < k)
    requires forall e :: e in kept <==> e in table && e.addr !in AddrSet(r[..k])
    ensures forall e :: e in kept <==> e in r[k..]
  {
    DropMembers(r, k);
    forall e ensures e in kept <==> e in r[k..] {
      if e in kept {
        var i :| 0 <= i < |r| && r[i] == e;
      }
    }
  }

  lemma {:induction false} KeptAreRankedLast(table: seq<Entry>, k: nat)
    requires NoDuplicates(Addrs(table)) && k <= |table|
    ensures var r, kept := Ranked(table), Keep(table, AddrSet(Ranked(table)[..k]));
            && (forall e :: e in kept <==> e in r[k..])
            && |kept| == |table| - k
  {
    hide Addrs, Keep, AddrSet, Ranked, Sorted, ByExpiry;
    var r := Ranked(table);
    var kept := Keep(table, AddrSet(r[..k]));
    RankedFacts(table);
    FirstAddrs(r, k);
    KeepMembers(table, AddrSet(r[..k]));
    KeptMembers(table, r, k, kept);
    KeepDistinct(table, AddrSet(r[..k]));
    DistinctAddrs(kept);
    SameSize(kept, r[k..]);
  }

  /**
   * An eviction drops exactly half of the entries, rounded down, and no survivor expires before an entry
   * that was dropped.
   */
  lemma {:induction false} EvictionDropsEarliestHalf(l: Limits, table: seq<Entry>)
    requires NoDuplicates(Addrs(table)) && |table| > l.maxBlacklist
    ensures var r := Evict(l, table);
            && |r| == |table| - |table| / 2
            && (forall e :: e in r ==> e in table)
            && forall kept, dropped :: kept in r && dropped in table && dropped !in r ==> dropped.expires <= kept.expires
  {
    var r, ranked, k := Evict(l, table), Ranked(table), |table| / 2;
    RankedFacts(table);
    KeptAreRankedLast(table, k);
    DropMembers(ranked, k);
    forall kept, dropped | kept in r && dropped in table && dropped !in r ensures dropped.expires <= kept.expires {
      var i :| k <= i < |ranked| && ranked[i] == kept;
      var j :| 0 <= j < |ranked| && ranked[j] == dropped;
      var le := ByExpiry();
      assert j < k;
      assert le(ranked[j], ranked[i]);
    }
  }

  /** Of entries that expire together, or in the order of the table, an eviction drops the earlier ones first. */
  lemma {:induction false} EvictionDropsEarlierFirst(l: Limits, table: seq<Entry>, i: nat, j: nat)
    requires NoDuplicates(Addrs(table)) && |table| > l.maxBlacklist
    requires i < j < |table| && table[i].expires <= table[j].expires && table[j] !in Evict(l, table)
    ensures table[i] !in Evict(l, table)
  {
    hide Addrs, Keep, AddrSet, Sorted, NoDuplicates;
    var ranked, k := Ranked(table), |table| / 2;
    RankedFacts(table);
    KeptAreRankedLast(table, k);
    DropMembers(ranked, k);
    SortStable(table, ByExpiry(), i, j);
    var a, b :| 0 <= a < b < |ranked| && ranked[a] == table[i] && ranked[b] == table[j];
    assert b < k;
  }

  /** The last of the entries that expire latest is ranked last. */
  lemma {:induction false} LatestIsRankedLast(table: seq<Entry>)
    requires table != [] && forall i :: 0 <= i < |table| ==> table[i].expires <= table[|table| - 1].expires
    ensures Ranked(table)[|table| - 1] == table[|table| - 1]
  {
    var init, e := table[..|table| - 1], table[|table| - 1];
    var r := Sort(init, ByExpiry());
    SameElements(r, init);
    if r != [] {
      assert r[|r| - 1] in init;
    }
    assert table == init + [e];
  }

  // ----- runs -----

  datatype Operation = Blacklist(addr: string) | Query(addr: string) | Whitelist(addr: string) | Clear

  datatype Timed = Timed(operation: Operation, time: real)

  datatype State = State(table: seq<Entry>, probes: Table)

  function Step(l: Limits, s: State, t: Timed): State {
    match t.operation
    case Blacklist(addr) =>
      State(Blacklisted(l, s.table, s.probes, addr, t.time), Probed(l, s.probes, addr, t.time))
    case Query(addr) => s.(table := Queried(s.table, addr, t.time))
    case Whitelist(addr) => State(Keep(s.table, {addr}), s.probes - {addr})
    case Clear => State([], map[])
  }

  function StateAfter(l: Limits, run: seq<Timed>): State {
    if run == [] then State([], map[]) else Step(l, StateAfter(l, run[..|run| - 1]), run[|run| - 1])
  }

  /** A maximum below one still leaves room for one entry, because half of one entry is none. */
  function Capacity(l: Limits): int {
    if l.maxBlacklist < 1 then 1 else l.maxBlacklist
  }

  ghost predicate Sane(l: Limits, table: seq<Entry>) {
    && |table| <= Capacity(l)
    && NoDuplicates(Addrs(table))
    && forall e :: e in table ==>
         e.addr != "127.0.0.1" && e.addr != "::1" && e.addr != "localhost" && e.ttl <= 86400
  }

  lemma {:induction false} PutNew(table: seq<Entry>, e: Entry)
    requires e.addr !in Addrs(table)
    ensures Put(table, e) == table + [e]
  {
    if table != [] {
      hide Addrs;
      AddrsCons(table[0], table[1..]);
      assert table == [table[0]] + table[1..];
      PutNew(table[1..], e);
    }
  }

  lemma {:induction false} PutOld(table: seq<Entry>, e: Entry, i: nat)
    requires i < |table| && table[i].addr == e.addr
    requires forall j :: 0 <= j < i ==> table[j].addr != e.addr
    ensures Put(table, e) == table[i := e]
  {
    if i > 0 {
      PutOld(table[1..], e, i - 1);
    }
  }

  /** Where an address stands in the table. */
  lemma {:induction false} PlaceOf(table: seq<Entry>, addr: string) returns (i: nat)
    requires NoDuplicates(Addrs(table)) && addr in Addrs(table)
    ensures i < |table| && table[i].addr == addr
    ensures forall j :: 0 <= j < |table| && j != i ==> table[j].addr != addr
  {
    i :| 0 <= i < |Addrs(table)| && Addrs(table)[i] == addr;
    DistinctAddrs(table);
  }

  lemma {:induction false} PutFacts(table: seq<Entry>, e: Entry)
    requires NoDuplicates(Addrs(table))
    ensures var r := Put(table, e);
            && NoDuplicates(Addrs(r))
            && (forall f :: f in r ==> f == e || f in table)
            && |r| == (if e.addr in Addrs(table) then |table| else |table| + 1)
            && e in r
  {
    var r := Put(table, e);
    if e.addr in Addrs(table) {
      var i := PlaceOf(table, e.addr);
      PutOld(table, e, i);
      assert Addrs(r) == Addrs(table);
      assert r[i] == e;
    } else {
      PutNew(table, e);
      AddrsAppend(table, [e]);
      assert Addrs([e]) == [e.addr];
      assert r[|table|] == e;
    }
  }

  lemma {:induction false} KeepNotLonger(table: seq<Entry>, gone: set<string>)
    ensures |Keep(table, gone)| <= |table|
  {
    if table != [] {
      KeepNotLonger(table[1..], gone);
    }
  }

  lemma {:induction false} KeepSane(l: Limits, table: seq<Entry>, gone: set<string>)
    requires Sane(l, table)
    ensures Sane(l, Keep(table, gone))
  {
    KeepNotLonger(table, gone);
    KeepDistinct(table, gone);
    KeepMembers(table, gone);
  }

  lemma {:induction false} EvictSane(l: Limits, table: seq<Entry>)
    requires |table| <= Capacity(l) + 1 && NoDuplicates(Addrs(table))
    requires forall e :: e in table ==> !IsLoopback(e.addr) && e.ttl <= MAX_TTL
    ensures Sane(l, Evict(l, table))
  {
    if |table| > l.maxBlacklist {
      EvictionDropsEarliestHalf(l, table);
      KeepDistinct(table, AddrSet(Ranked(table)[..|table| / 2]));
    }
  }

  /**
   * In every run, whatever the clock does: the table never exceeds its maximum, or one entry if the maximum
   * is less; it holds no loopback address, no address twice and no time to live above a day.
   */
  lemma {:induction false} ReachableTablesAreSane(l: Limits, run: seq<Timed>)
    ensures Sane(l, StateAfter(l, run).table)
  {
    if run != [] {
      var s, t := StateAfter(l, run[..|run| - 1]), run[|run| - 1];
      ReachableTablesAreSane(l, run[..|run| - 1]);
      match t.operation
      case Blacklist(addr) =>
        if !IsLoopback(addr) {
          var e := NewEntry(l, s.probes, addr, t.time);
          PutFacts(s.table, e);
          EvictSane(l, Put(s.table, e));
        }
      case Query(addr) => KeepSane(l, s.table, {addr});
      case Whitelist(addr) => KeepSane(l, s.table, {addr});
      case Clear =>
    }
  }

  /** One address blacklisted, on an empty table. */
  lemma {:induction false} FirstEntryStays(l: Limits, addr: string, now: real)
    requires !IsLoopback(addr)
    ensures |StateAfter(l, [Timed(Blacklist(addr), now)]).table| == 1
  {
    var run := [Timed(Blacklist(addr), now)];
    assert run[..0] == [];
    assert StateAfter(l, run[..0]) == State([], map[]);
    var e := NewEntry(l, map[], addr, now);
    assert Put([], e) == [e];
    if 1 > l.maxBlacklist {
      assert Ranked([e])[..0] == [] && AddrSet([]) == {};
      KeepAll([e]);
    }
  }

  /** The table keeps to its maximum in every run exactly if the maximum is positive. */
  lemma {:induction false} MaximumHoldsIff(l: Limits)
    ensures (forall run :: |StateAfter(l, run).table| <= l.maxBlacklist) <==> l.maxBlacklist >= 1
  {
    forall run ensures |StateAfter(l, run).table| <= Capacity(l) {
      ReachableTablesAreSane(l, run);
    }
    var run := [Timed(Blacklist("10.0.0.1"), 0.0)];
    assert |"10.0.0.1"| == 8 && |"127.0.0.1"| == |"localhost"| == 9;
    FirstEntryStays(l, "10.0.0.1", 0.0);
    assert |StateAfter(l, run).table| == 1;
  }

  /** A newly blacklisted address stays in the table whenever no other entry expires later. */
  lemma {:induction false} NewEntrySurvives(l: Limits, run: seq<Timed>, addr: string, now: real)
    requires !IsLoopback(addr)
    requires var s := StateAfter(l, run);
             forall e :: e in s.table && e.addr != addr ==> e.expires <= NewEntry(l, s.probes, addr, now).expires
    ensures var s := StateAfter(l, run);
            NewEntry(l, s.probes, addr, now) in Step(l, s, Timed(Blacklist(addr), now)).table
  {
    var s := StateAfter(l, run);
    var e := NewEntry(l, s.probes, addr, now);
    var table := Put(s.table, e);
    ReachableTablesAreSane(l, run);
    PutFacts(s.table, e);
    if |table| > l.maxBlacklist {
      if addr !in Addrs(s.table) {
        PutNew(s.table, e);
        forall i | 0 <= i < |table| ensures table[i].expires <= e.expires {
          if i < |s.table| {
            assert s.table[i] in s.table && Addrs(s.table)[i] == s.table[i].addr;
          }
        }
        LatestIsRankedLast(table);
      } else {
        assert |table| == 1;
      }
      EvictionKeepsLast(l, table, e);
    }
  }

  lemma {:induction false} EvictionKeepsLast(l: Limits, table: seq<Entry>, e: Entry)
    requires NoDuplicates(Addrs(table)) && |table| > l.maxBlacklist && table != []
    requires |table| == 1 ==> table[0] == e
    requires |table| > 1 ==> Ranked(table)[|table| - 1] == e
    ensures e in Evict(l, table)
  {
    var k := |table| / 2;
    KeptAreRankedLast(table, k);
    DropMembers(Ranked(table), k);
    if |table| == 1 {
      RankedFacts(table);
      assert e in table;
    }
  }
}
