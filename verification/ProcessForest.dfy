/**
 * The process tree of the kernel routes: a snapshot of processes becomes a table by pid, then every
 * process is appended to the children of its parent. Nodes are named by their pids.
 */
module ProcessForest {
  import opened Sorting

  datatype Process = Process(pid: int, ppid: int, name: string)

  // ----- the table -----

  function Pids(table: seq<Process>): (r: seq<int>)
    ensures |r| == |table| && forall i :: 0 <= i < |r| ==> r[i] == table[i].pid
  {
    if table == [] then [] else [table[0].pid] + Pids(table[1..])
  }

  /** `tree[pid] = node`: a pid seen before keeps its place. */
  function Put(table: seq<Process>, p: Process): seq<Process> {
    if table == [] then [p]
    else if table[0].pid == p.pid then [p] + table[1..]
    else [table[0]] + Put(table[1..], p)
  }

  /** The table after the first `n` processes of a snapshot. */
  function TableOf(snapshot: seq<Process>, n: nat): seq<Process>
    requires n <= |snapshot|
  {
    if n == 0 then [] else Put(TableOf(snapshot, n - 1), snapshot[n - 1])
  }

  // ----- parents, roots and children -----

  predicate HasParent(table: seq<Process>, p: Process) {
    p.ppid in Pids(table) && p.ppid != p.pid
  }

  /** The pids among the first `n` entries whose process is a child of `parent`. */
  function ChildrenOf(table: seq<Process>, parent: int, n: nat): (r: seq<int>)
    requires n <= |table|
    ensures |r| <= n
  {
    if n == 0 then []
    else
      var p := table[n - 1];
      ChildrenOf(table, parent, n - 1) + if p.ppid == parent && HasParent(table, p) then [p.pid] else []
  }

  function Children(table: seq<Process>, parent: int): seq<int> {
    ChildrenOf(table, parent, |table|)
  }

  /** The pids of the roots among the first `n` entries. */
  function RootsOf(table: seq<Process>, n: nat): (r: seq<int>)
    requires n <= |table|
    ensures |r| <= n
  {
    if n == 0 then []
    else RootsOf(table, n - 1) + if HasParent(table, table[n - 1]) then [] else [table[n - 1].pid]
  }

  function Roots(table: seq<Process>): seq<int> {
    RootsOf(table, |table|)
  }

  lemma {:induction false} ParentTest(table: seq<Process>, p: Process)
    ensures HasParent(table, p) <==> p.ppid in Pids(table) && p.ppid != p.pid
  {
  }

  datatype Forest = Forest(children: map<int, seq<int>>, roots: seq<int>)

  function ForestOf(table: seq<Process>): Forest {
    Forest(map pid | pid in Pids(table) :: Children(table, pid), Roots(table))
  }

  /** The loop of `process_tree` that appends every process to the children of its parent. */
  method LinkChildren(table: seq<Process>) returns (children: map<int, seq<int>>)
    ensures children == ForestOf(table).children
  {
    hide Pids, HasParent;
    children := map pid | pid in Pids(table) :: [];
    for i := 0 to |table|
      invariant children.Keys == set pid | pid in Pids(table)
      invariant forall pid :: pid in children ==> children[pid] == ChildrenOf(table, pid, i)
    {
      var p := table[i];
      ParentTest(table, p);
      if p.ppid in children && p.ppid != p.pid {
        children := children[p.ppid := children[p.ppid] + [p.pid]];
      }
    }
  }

  /** The loop of `process_tree` that collects the processes without a parent. */
  method CollectRoots(table: seq<Process>, children: map<int, seq<int>>) returns (roots: seq<int>)
    requires forall pid :: pid in children <==> pid in Pids(table)
    ensures roots == Roots(table)
  {
    hide Pids, HasParent;
    roots := [];
    for i := 0 to |table|
      invariant roots == RootsOf(table, i)
    {
      var p := table[i];
      ParentTest(table, p);
      if p.ppid !in children || p.ppid == p.pid {
        roots := roots + [p.pid];
      }
    }
  }

  /** `process_tree`. */
  method ProcessTree(snapshot: seq<Process>) returns (f: Forest)
    ensures f == ForestOf(TableOf(snapshot, |snapshot|))
  {
    hide Pids, Put, Roots, Children;
    var table := [];
    for i := 0 to |snapshot|
      invariant table == TableOf(snapshot, i)
    {
      table := Put(table, snapshot[i]);
    }
    var children := LinkChildren(table);
    var roots := CollectRoots(table, children);
    f := Forest(children, roots);
  }

  // ----- every process is a root or one child -----

  lemma {:induction false} PutPids(table: seq<Process>, p: Process)
    requires NoDuplicates(Pids(table))
    ensures NoDuplicates(Pids(Put(table, p)))
    ensures forall x :: x in Pids(Put(table, p)) <==> x == p.pid || x in Pids(table)
  {
    if table != [] {
      var all, rest := Pids(table), Pids(table[1..]);
      assert all == [table[0].pid] + rest;
      assert forall i :: 0 <= i < |rest| ==> rest[i] == all[i + 1];
      if table[0].pid == p.pid {
        assert ([p] + table[1..])[1..] == table[1..];
      } else {
        PutPids(table[1..], p);
        var r := Put(table, p);
        assert r[1..] == Put(table[1..], p);
        assert Pids(r) == [table[0].pid] + Pids(r[1..]);
        assert table[0].pid !in Pids(r[1..]);
      }
    }
  }

  lemma {:induction false} NoPids()
    ensures Pids([]) == [] && NoDuplicates(Pids([]))
  {
  }

  /** The table has every pid once, however often the snapshot names it. */
  lemma {:induction false} TablePidsDistinct(snapshot: seq<Process>, n: nat)
    requires n <= |snapshot|
    ensures NoDuplicates(Pids(TableOf(snapshot, n)))
  {
    hide Pids, Put, NoDuplicates;
    NoPids();
    if n > 0 {
      TablePidsDistinct(snapshot, n - 1);
      PutPids(TableOf(snapshot, n - 1), snapshot[n - 1]);
    }
  }

  /** The i-th entry is among the first `n` and has the given pid. */
  predicate Precedes(table: seq<Process>, i: int, n: nat, pid: int) {
    0 <= i < n <= |table| && table[i].pid == pid
  }

  lemma {:induction false} ChildrenMembers(table: seq<Process>, parent: int, n: nat)
    requires n <= |table| && NoDuplicates(Pids(table))
    ensures NoDuplicates(ChildrenOf(table, parent, n))
    ensures forall pid :: pid in ChildrenOf(table, parent, n) <==>
              exists i :: Precedes(table, i, n, pid) && table[i].ppid == parent && HasParent(table, table[i])
  {
    hide Pids, HasParent;
    if n > 0 {
      var before, p := ChildrenOf(table, parent, n - 1), table[n - 1];
      ChildrenMembers(table, parent, n - 1);
      FirstOccurrence(table, n - 1);
      forall pid ensures pid in ChildrenOf(table, parent, n) <==>
                exists i :: Precedes(table, i, n, pid) && table[i].ppid == parent && HasParent(table, table[i])
      {
        if pid in before {
          var i :| Precedes(table, i, n - 1, pid) && table[i].ppid == parent && HasParent(table, table[i]);
          assert Precedes(table, i, n, pid);
        } else if pid == p.pid {
          assert Precedes(table, n - 1, n, pid);
        }
        if i :| Precedes(table, i, n, pid) && table[i].ppid == parent && HasParent(table, table[i]) {
          if i < n - 1 { assert Precedes(table, i, n - 1, pid); }
        }
      }
      assert p.pid !in before;
    }
  }

  lemma {:induction false} FirstOccurrence(table: seq<Process>, n: nat)
    requires n < |table| && NoDuplicates(Pids(table))
    ensures forall i :: 0 <= i < |table| && table[i].pid == table[n].pid ==> i == n
  {
    forall i | 0 <= i < |table| && table[i].pid == table[n].pid ensures i == n {
      assert Pids(table)[i] == Pids(table)[n];
    }
  }

  lemma {:induction false} RootsMembers(table: seq<Process>, n: nat)
    requires n <= |table| && NoDuplicates(Pids(table))
    ensures NoDuplicates(RootsOf(table, n))
    ensures forall pid :: pid in RootsOf(table, n) <==>
              exists i :: Precedes(table, i, n, pid) && !HasParent(table, table[i])
  {
    hide Pids, HasParent;
    if n > 0 {
      var before, p := RootsOf(table, n - 1), table[n - 1];
      RootsMembers(table, n - 1);
      FirstOccurrence(table, n - 1);
      forall pid ensures pid in RootsOf(table, n) <==>
                exists i :: Precedes(table, i, n, pid) && !HasParent(table, table[i])
      {
        if pid in before {
          var i :| Precedes(table, i, n - 1, pid) && !HasParent(table, table[i]);
          assert Precedes(table, i, n, pid);
        } else if pid == p.pid {
          assert Precedes(table, n - 1, n, pid);
        }
        if i :| Precedes(table, i, n, pid) && !HasParent(table, table[i]) {
          if i < n - 1 { assert Precedes(table, i, n - 1, pid); }
        }
      }
      assert p.pid !in before;
    }
  }

  /** The entry of a pid. */
  lemma {:induction false} EntryOf(table: seq<Process>, pid: int) returns (i: nat)
    requires pid in Pids(table)
    ensures i < |table| && table[i].pid == pid && Precedes(table, i, |table|, pid)
  {
    i :| 0 <= i < |Pids(table)| && Pids(table)[i] == pid;
  }

  /** Every process is a root or a child of its parent alone, and never both. */
  lemma {:induction false} RootOrOneChild(table: seq<Process>, i: nat)
    requires i < |table| && NoDuplicates(Pids(table))
    ensures var p := table[i];
            && (p.pid in Roots(table) <==> !HasParent(table, p))
            && (forall parent :: p.pid in Children(table, parent) <==> HasParent(table, p) && parent == p.ppid)
            && NoDuplicates(Roots(table))
            && forall parent :: NoDuplicates(Children(table, parent))
  {
    var p := table[i];
    RootsMembers(table, |table|);
    FirstOccurrence(table, i);
    assert Precedes(table, i, |table|, p.pid);
    forall parent
      ensures p.pid in Children(table, parent) <==> HasParent(table, p) && parent == p.ppid
      ensures NoDuplicates(Children(table, parent))
    {
      ChildrenMembers(table, parent, |table|);
    }
  }

  // ----- counting -----

  /** The lengths of the children lists of some parents, added up. */
  function ChildCount(table: seq<Process>, parents: seq<int>, n: nat): nat
    requires n <= |table|
  {
    if parents == [] then 0
    else |ChildrenOf(table, parents[0], n)| + ChildCount(table, parents[1..], n)
  }

  lemma {:induction false} ChildCountStep(table: seq<Process>, parents: seq<int>, n: nat)
    requires n < |table| && NoDuplicates(parents)
    ensures ChildCount(table, parents, n + 1) == ChildCount(table, parents, n)
            + if HasParent(table, table[n]) && table[n].ppid in parents then 1 else 0
  {
    if parents != [] {
      assert forall i :: 0 <= i < |parents[1..]| ==> parents[1..][i] == parents[i + 1];
      ChildCountStep(table, parents[1..], n);
      assert table[n].ppid in parents <==> table[n].ppid == parents[0] || table[n].ppid in parents[1..];
    }
  }

  lemma {:induction false} NoChildrenYet(table: seq<Process>, parents: seq<int>)
    ensures ChildCount(table, parents, 0) == 0
  {
    if parents != [] {
      NoChildrenYet(table, parents[1..]);
    }
  }

  lemma {:induction false} ChildrenAndRoots(table: seq<Process>, n: nat)
    requires n <= |table| && NoDuplicates(Pids(table))
    ensures ChildCount(table, Pids(table), n) + |RootsOf(table, n)| == n
  {
    hide ChildCount, Pids;
    if n == 0 {
      NoChildrenYet(table, Pids(table));
    } else {
      ChildrenAndRoots(table, n - 1);
      ChildCountStep(table, Pids(table), n - 1);
    }
  }

  /** All children lists together hold every process that is no root. */
  lemma {:induction false} ChildrenTotal(table: seq<Process>)
    requires NoDuplicates(Pids(table))
    ensures ChildCount(table, Pids(table), |table|) == |table| - |Roots(table)|
  {
    ChildrenAndRoots(table, |table|);
  }

  // ----- reaching every process from the roots -----

  /** A path down the forest: from a root along children lists. */
  predicate IsPath(table: seq<Process>, path: seq<int>) {
    && path != [] && path[0] in Roots(table)
    && forall i :: 0 < i < |path| ==> path[i] in Children(table, path[i - 1])
  }

  predicate Leads(table: seq<Process>, path: seq<int>, pid: int) {
    IsPath(table, path) && path[|path| - 1] == pid
  }

  /** The only parent of a child. */
  lemma {:induction false} ParentOfChild(table: seq<Process>, parent: int, child: int) returns (i: nat)
    requires NoDuplicates(Pids(table)) && child in Children(table, parent)
    ensures i < |table| && table[i].pid == child && table[i].ppid == parent && HasParent(table, table[i])
  {
    ChildrenMembers(table, parent, |table|);
    i :| Precedes(table, i, |table|, child) && table[i].ppid == parent && HasParent(table, table[i]);
  }

  lemma {:induction false} RootIsNoChild(table: seq<Process>, root: int, parent: int)
    requires NoDuplicates(Pids(table)) && root in Roots(table)
    ensures root !in Children(table, parent)
  {
    RootsMembers(table, |table|);
    var i :| Precedes(table, i, |table|, root) && !HasParent(table, table[i]);
    RootOrOneChild(table, i);
  }

  /** No process is reached on two paths, cycles or not. */
  lemma {:induction false} PathUnique(table: seq<Process>, p: seq<int>, q: seq<int>, pid: int)
    requires NoDuplicates(Pids(table)) && Leads(table, p, pid) && Leads(table, q, pid)
    ensures p == q
    decreases |p|
  {
    if |p| == 1 && |q| == 1 {
    } else if |p| == 1 {
      RootIsNoChild(table, pid, q[|q| - 2]);
    } else if |q| == 1 {
      RootIsNoChild(table, pid, p[|p| - 2]);
    } else {
      var i := ParentOfChild(table, p[|p| - 2], pid);
      var j := ParentOfChild(table, q[|q| - 2], pid);
      FirstOccurrence(table, i);
      var p', q' := p[..|p| - 1], q[..|q| - 1];
      PathUnique(table, p', q', p[|p| - 2]);
      assert p == p' + [pid] && q == q' + [pid];
    }
  }

  /** The path to a process, if there is one. */
  ghost predicate Reached(table: seq<Process>, pid: int) {
    exists path :: Leads(table, path, pid)
  }

  ghost function PathTo(table: seq<Process>, pid: int): (path: seq<int>)
    requires Reached(table, pid)
    ensures Leads(table, path, pid)
  {
    var path :| Leads(table, path, pid);
    path
  }

  /** The length of its path ranks every process behind its parent. */
  lemma {:induction false} PathLengthsRank(table: seq<Process>, i: nat)
    requires NoDuplicates(Pids(table)) && i < |table| && HasParent(table, table[i])
    requires Reached(table, table[i].pid) && Reached(table, table[i].ppid)
    ensures |PathTo(table, table[i].pid)| == |PathTo(table, table[i].ppid)| + 1
  {
    var up := PathTo(table, table[i].ppid);
    RootOrOneChild(table, i);
    assert Leads(table, up + [table[i].pid], table[i].pid);
    PathUnique(table, up + [table[i].pid], PathTo(table, table[i].pid), table[i].pid);
  }

  // ----- cycles -----

  /** The process with the pid `child` is a child of the one with the pid `parent`. */
  predicate IsParent(table: seq<Process>, parent: int, child: int) {
    exists i :: 0 <= i < |table| && table[i].pid == child && table[i].ppid == parent && HasParent(table, table[i])
  }

  predicate ClimbsAt(table: seq<Process>, s: seq<int>, i: int) {
    0 <= i < |s| - 1 && IsParent(table, s[i + 1], s[i])
  }

  /** Every process in the list is a child of the next one, and the last a child of the first. */
  predicate IsCycle(table: seq<Process>, c: seq<int>) {
    && c != []
    && (forall i :: 0 <= i < |c| - 1 ==> ClimbsAt(table, c, i))
    && IsParent(table, c[0], c[|c| - 1])
  }

  /** A climb from child to parent that meets no process twice. */
  ghost predicate IsTrail(table: seq<Process>, trail: seq<int>) {
    && trail != [] && NoDuplicates(trail)
    && (forall i :: 0 <= i < |trail| ==> trail[i] in Pids(table))
    && forall i :: 0 <= i < |trail| - 1 ==> ClimbsAt(table, trail, i)
  }

  lemma {:induction false} ParentGrowsTrail(table: seq<Process>, trail: seq<int>, parent: int)
    requires IsTrail(table, trail) && IsParent(table, parent, trail[|trail| - 1]) && parent in Pids(table)
    ensures parent in trail ==> exists c :: IsCycle(table, c)
    ensures parent !in trail ==> IsTrail(table, trail + [parent])
  {
    hide IsParent, Pids;
    if parent in trail {
      var k :| 0 <= k < |trail| && trail[k] == parent;
      var c := trail[k..];
      forall i | 0 <= i < |c| - 1 ensures ClimbsAt(table, c, i) {
        assert ClimbsAt(table, trail, k + i);
      }
      assert IsCycle(table, c);
    } else {
      var longer := trail + [parent];
      forall i | 0 <= i < |longer| - 1 ensures ClimbsAt(table, longer, i) {
        if i < |trail| - 1 {
          assert ClimbsAt(table, trail, i);
        }
      }
    }
  }

  /** Without a cycle the climb from a process ends at a root, so that the way back down reaches it. */
  lemma {:induction false} ClimbEnds(table: seq<Process>, trail: seq<int>)
    requires NoDuplicates(Pids(table)) && IsTrail(table, trail)
    requires !exists c :: IsCycle(table, c)
    ensures Reached(table, trail[|trail| - 1])
    decreases (set pid | pid in Pids(table)) - (set pid | pid in trail)
  {
    hide Children, Roots, Pids, NoDuplicates;
    var pid := trail[|trail| - 1];
    var i := EntryOf(table, pid);
    RootOrOneChild(table, i);
    if HasParent(table, table[i]) {
      var parent := table[i].ppid;
      assert IsParent(table, parent, pid);
      ParentGrowsTrail(table, trail, parent);
      var left, before := (set pid | pid in Pids(table)) - (set pid | pid in trail + [parent]),
                          (set pid | pid in Pids(table)) - (set pid | pid in trail);
      assert left < before by {
        assert parent in before && parent !in left;
      }
      ClimbEnds(table, trail + [parent]);
      var up :| Leads(table, up, parent);
      assert Leads(table, up + [pid], pid);
    } else {
      assert Leads(table, [pid], pid);
    }
  }

  lemma {:induction false} ParentPathShorter(table: seq<Process>, parent: int, child: int)
    requires NoDuplicates(Pids(table)) && IsParent(table, parent, child)
    requires Reached(table, parent) && Reached(table, child)
    ensures |PathTo(table, child)| == |PathTo(table, parent)| + 1
  {
    var i :| 0 <= i < |table| && table[i].pid == child && table[i].ppid == parent && HasParent(table, table[i]);
    PathLengthsRank(table, i);
  }

  lemma {:induction false} CyclePids(table: seq<Process>, c: seq<int>)
    requires IsCycle(table, c)
    ensures forall i :: 0 <= i < |c| ==> c[i] in Pids(table)
  {
    forall i | 0 <= i < |c| ensures c[i] in Pids(table) {
      var parent := if i == |c| - 1 then c[0] else c[i + 1];
      assert i < |c| - 1 ==> ClimbsAt(table, c, i);
      assert IsParent(table, parent, c[i]);
      var j :| 0 <= j < |table| && table[j].pid == c[i] && table[j].ppid == parent && HasParent(table, table[j]);
      assert Pids(table)[j] == c[i];
    }
  }

  /** Going round a cycle the paths from the roots would get shorter all the way. */
  lemma {:induction false} PathsShrinkAlong(table: seq<Process>, c: seq<int>, n: nat)
    requires NoDuplicates(Pids(table)) && IsCycle(table, c) && n < |c|
    requires forall i :: 0 <= i < |c| ==> Reached(table, c[i])
    ensures |PathTo(table, c[0])| == |PathTo(table, c[n])| + n
  {
    if n > 0 {
      PathsShrinkAlong(table, c, n - 1);
      assert ClimbsAt(table, c, n - 1);
      ParentPathShorter(table, c[n], c[n - 1]);
    }
  }

  /**
   * Every process is reached from the roots, then on exactly one path, if and only if the parent links have
   * no cycle other than self-parents.
   */
  lemma {:induction false} AllReachedIffAcyclic(table: seq<Process>)
    requires NoDuplicates(Pids(table))
    ensures (forall pid :: pid in Pids(table) ==> Reached(table, pid)) <==> !exists c :: IsCycle(table, c)
  {
    if c :| IsCycle(table, c) {
      CyclePids(table, c);
      if forall pid :: pid in Pids(table) ==> Reached(table, pid) {
        PathsShrinkAlong(table, c, |c| - 1);
        ParentPathShorter(table, c[0], c[|c| - 1]);
      }
    } else {
      forall pid | pid in Pids(table) ensures Reached(table, pid) {
        ClimbEnds(table, [pid]);
      }
    }
  }

  // ----- the forest of a snapshot -----

  /** No later process of the snapshot has the same pid. */
  predicate Latest(snapshot: seq<Process>, n: nat, i: int) {
    0 <= i < n <= |snapshot| && forall j :: i < j < n ==> snapshot[j].pid != snapshot[i].pid
  }

  predicate IsLatest(snapshot: seq<Process>, n: nat, p: Process) {
    exists i :: 0 <= i < |snapshot| && Latest(snapshot, n, i) && snapshot[i] == p
  }

  predicate IsKnown(snapshot: seq<Process>, pid: int) {
    exists i :: 0 <= i < |snapshot| && snapshot[i].pid == pid
  }

  lemma {:induction false} PutMembers(table: seq<Process>, p: Process)
    requires NoDuplicates(Pids(table))
    ensures forall q :: q in Put(table, p) <==> q == p || (q in table && q.pid != p.pid)
  {
    if table != [] {
      var first, rest := table[0], table[1..];
      assert table == [first] + rest;
      assert Pids(table) == [first.pid] + Pids(rest);
      DistinctCons(first.pid, Pids(rest));
      hide NoDuplicates;
      if first.pid == p.pid {
        PidsOfMembers(rest);
      } else {
        PutMembers(rest, p);
      }
    }
  }

  lemma {:induction false} PidsOfMembers(table: seq<Process>)
    ensures forall q :: q in table ==> q.pid in Pids(table)
  {
    forall q | q in table ensures q.pid in Pids(table) {
      var i :| 0 <= i < |table| && table[i] == q;
      assert Pids(table)[i] == q.pid;
    }
  }

  lemma {:induction false} LatestStep(snapshot: seq<Process>, n: nat, i: int)
    requires 0 < n <= |snapshot|
    ensures Latest(snapshot, n, i) <==>
            i == n - 1 || (Latest(snapshot, n - 1, i) && snapshot[n - 1].pid != snapshot[i].pid)
  {
  }

  lemma {:induction false} LatestProcessStep(snapshot: seq<Process>, n: nat, q: Process)
    requires 0 < n <= |snapshot|
    ensures var p := snapshot[n - 1];
            IsLatest(snapshot, n, q) <==> q == p || (IsLatest(snapshot, n - 1, q) && q.pid != p.pid)
  {
    hide Latest;
    LatestStep(snapshot, n, n - 1);
    if i :| 0 <= i < |snapshot| && Latest(snapshot, n - 1, i) && snapshot[i] == q {
      LatestStep(snapshot, n, i);
    }
    if i :| 0 <= i < |snapshot| && Latest(snapshot, n, i) && snapshot[i] == q {
      LatestStep(snapshot, n, i);
    }
  }

  lemma {:induction false} NothingLatest(snapshot: seq<Process>, q: Process)
    ensures !IsLatest(snapshot, 0, q)
  {
  }

  /** The table holds, for every pid, the latest process with it. */
  lemma {:induction false} TableHoldsLatest(snapshot: seq<Process>, n: nat, q: Process)
    requires n <= |snapshot|
    ensures q in TableOf(snapshot, n) <==> IsLatest(snapshot, n, q)
  {
    hide IsLatest, Put, NoDuplicates, Pids;
    if n == 0 {
      NothingLatest(snapshot, q);
    } else {
      TablePidsDistinct(snapshot, n - 1);
      PutMembers(TableOf(snapshot, n - 1), snapshot[n - 1]);
      TableHoldsLatest(snapshot, n - 1, q);
      LatestProcessStep(snapshot, n, q);
    }
  }

  lemma {:induction false} KnownPids(snapshot: seq<Process>, n: nat)
    requires n <= |snapshot|
    ensures forall pid :: pid in Pids(TableOf(snapshot, n)) <==> exists i :: 0 <= i < n && snapshot[i].pid == pid
  {
    hide Pids, Put, NoDuplicates;
    NoPids();
    if n > 0 {
      TablePidsDistinct(snapshot, n - 1);
      PutPids(TableOf(snapshot, n - 1), snapshot[n - 1]);
      KnownPids(snapshot, n - 1);
    }
  }

  /** The process is a child: its parent is another process of the snapshot. */
  predicate IsChild(snapshot: seq<Process>, p: Process) {
    p.ppid != p.pid && IsKnown(snapshot, p.ppid)
  }

  /**
   * The forest of any snapshot: it knows the pids of the snapshot; the latest process with a pid is a root unless
   * it is a child, and a child stands in the list of its parent alone.
   */
  lemma {:induction false} RootsAndChildrenOfSnapshot(snapshot: seq<Process>, i: nat)
    requires Latest(snapshot, |snapshot|, i)
    ensures var f, p := ForestOf(TableOf(snapshot, |snapshot|)), snapshot[i];
            && (forall pid :: pid in f.children <==> IsKnown(snapshot, pid))
            && (p.pid in f.roots <==> !IsChild(snapshot, p))
            && forall parent :: parent in f.children ==>
                 (p.pid in f.children[parent] <==> IsChild(snapshot, p) && parent == p.ppid)
  {
    hide Pids, Children, Roots, TableOf, NoDuplicates;
    var table, p := TableOf(snapshot, |snapshot|), snapshot[i];
    TableHoldsLatest(snapshot, |snapshot|, p);
    TablePidsDistinct(snapshot, |snapshot|);
    KnownPids(snapshot, |snapshot|);
    assert p in table;
    var k :| 0 <= k < |table| && table[k] == p;
    RootOrOneChild(table, k);
  }

  /** The lengths of the children lists of some processes of a forest, added up. */
  function ListedChildren(f: Forest, pids: seq<int>): nat
    requires forall i :: 0 <= i < |pids| ==> pids[i] in f.children
  {
    if pids == [] then 0 else
      |f.children[pids[0]]| + ListedChildren(f, pids[1..])
  }

  lemma {:induction false} ListedIsCounted(table: seq<Process>, pids: seq<int>)
    requires forall i :: 0 <= i < |pids| ==> pids[i] in Pids(table)
    ensures ListedChildren(ForestOf(table), pids) == ChildCount(table, pids, |table|)
  {
    if pids != [] {
      ListedIsCounted(table, pids[1..]);
    }
  }

  lemma {:induction false} DistinctCount(s: seq<int>)
    requires NoDuplicates(s)
    ensures |set x | x in s| == |s|
  {
    if s == [] {
      assert (set x | x in s) == {};
    } else {
      assert s == [s[0]] + s[1..];
      DistinctCons(s[0], s[1..]);
      DistinctCount(s[1..]);
      assert (set x | x in s) == {s[0]} + (set x | x in s[1..]);
    }
  }

  /** The children lists together hold as many processes as the forest knows, but for its roots. */
  lemma {:induction false} ChildrenOfSnapshotTotal(snapshot: seq<Process>)
    ensures var table := TableOf(snapshot, |snapshot|);
            var f := ForestOf(table);
            ListedChildren(f, Pids(table)) + |f.roots| == |f.children|
  {
    var table := TableOf(snapshot, |snapshot|);
    TablePidsDistinct(snapshot, |snapshot|);
    ChildrenTotal(table);
    ListedIsCounted(table, Pids(table));
    DistinctCount(Pids(table));
    assert ForestOf(table).children.Keys == set pid | pid in Pids(table);
  }

  predicate StepsDown(f: Forest, path: seq<int>, i: int) {
    0 < i < |path| && path[i - 1] in f.children && path[i] in f.children[path[i - 1]]
  }

  predicate IsForestPath(f: Forest, path: seq<int>) {
    && path != [] && path[0] in f.roots
    && forall i :: 0 < i < |path| ==> StepsDown(f, path, i)
  }

  lemma {:induction false} ParentIsKnown(table: seq<Process>, parent: int, child: int)
    requires NoDuplicates(Pids(table)) && child in Children(table, parent)
    ensures parent in Pids(table)
  {
    var i := ParentOfChild(table, parent, child);
  }

  lemma {:induction false} ForestPaths(table: seq<Process>, path: seq<int>)
    requires NoDuplicates(Pids(table))
    ensures IsForestPath(ForestOf(table), path) <==> IsPath(table, path)
  {
    hide Roots, Children, Pids, NoDuplicates;
    var f := ForestOf(table);
    forall i | 0 < i < |path| ensures StepsDown(f, path, i) <==> path[i] in Children(table, path[i - 1]) {
      if path[i] in Children(table, path[i - 1]) {
        ParentIsKnown(table, path[i - 1], path[i]);
      }
    }
    if IsForestPath(f, path) {
      forall i | 0 < i < |path| ensures path[i] in Children(table, path[i - 1]) {
        assert StepsDown(f, path, i);
      }
    }
  }

  ghost predicate LeadsInForest(f: Forest, path: seq<int>, pid: int) {
    IsForestPath(f, path) && path[|path| - 1] == pid
  }

  /**
   * Walking down from the roots of the forest of any snapshot meets no process twice, and meets every process
   * exactly when the parent links have no cycle other than self-parents.
   */
  lemma {:induction false} WalkMeetsAllIffAcyclic(snapshot: seq<Process>)
    ensures var table := TableOf(snapshot, |snapshot|);
            var f := ForestOf(table);
            && (forall p, q, pid :: LeadsInForest(f, p, pid) && LeadsInForest(f, q, pid) ==> p == q)
            && ((forall pid :: pid in f.children ==> exists path :: LeadsInForest(f, path, pid)) <==>
                !exists c :: IsCycle(table, c))
  {
    hide Children, Roots, IsPath, IsForestPath, IsCycle, Pids;
    var table := TableOf(snapshot, |snapshot|);
    var f := ForestOf(table);
    TablePidsDistinct(snapshot, |snapshot|);
    AllReachedIffAcyclic(table);
    forall path, pid ensures LeadsInForest(f, path, pid) <==> Leads(table, path, pid) {
      ForestPaths(table, path);
    }
    forall p, q, pid | LeadsInForest(f, p, pid) && LeadsInForest(f, q, pid) ensures p == q {
      PathUnique(table, p, q, pid);
    }
    forall pid ensures Reached(table, pid) <==> exists path :: LeadsInForest(f, path, pid) {
      if Reached(table, pid) {
        assert LeadsInForest(f, PathTo(table, pid), pid);
      }
      if path :| LeadsInForest(f, path, pid) {
        assert Leads(table, path, pid);
      }
    }
    assert forall pid :: pid in f.children <==> pid in Pids(table);
    assert forall p, q, pid :: LeadsInForest(f, p, pid) && LeadsInForest(f, q, pid) ==> p == q;
  }

  // ----- the order of roots and children -----

  /** The first process with the one pid comes before the first with the other. */
  ghost predicate SeenBefore(snapshot: seq<Process>, n: nat, pid: int, other: int)
    requires n <= |snapshot|
  {
    exists m :: 0 <= m < n && snapshot[m].pid == pid && NotSeen(snapshot, m, other)
  }

  predicate NotSeen(snapshot: seq<Process>, m: nat, pid: int)
    requires m < |snapshot|
  {
    forall k :: 0 <= k <= m ==> snapshot[k].pid != pid
  }

  lemma {:induction false} PutKeepsPlaces(table: seq<Process>, p: Process)
    ensures Pids(Put(table, p)) == if p.pid in Pids(table) then Pids(table) else Pids(table) + [p.pid]
  {
    if table != [] {
      PutKeepsPlaces(table[1..], p);
      var r := Put(table, p);
      if table[0].pid != p.pid {
        assert r[1..] == Put(table[1..], p);
        assert Pids(r) == [table[0].pid] + Pids(r[1..]);
      } else {
        assert r[1..] == table[1..];
      }
    }
  }

  /** The table lists the pids in the order in which they were first seen. */
  lemma {:induction false} TableInOrder(snapshot: seq<Process>, n: nat, i: nat, j: nat)
    requires n <= |snapshot| && i < j < |TableOf(snapshot, n)|
    ensures SeenBefore(snapshot, n, Pids(TableOf(snapshot, n))[i], Pids(TableOf(snapshot, n))[j])
  {
    assert n > 0;
    var before, p := TableOf(snapshot, n - 1), snapshot[n - 1];
    var pids := Pids(before);
    PutKeepsPlaces(before, p);
    KnownPids(snapshot, n - 1);
    assert Pids(TableOf(snapshot, n)) == if p.pid in pids then pids else pids + [p.pid];
    hide Pids, Put, TableOf, SeenBefore;
    if j < |pids| {
      TableInOrder(snapshot, n - 1, i, j);
      SeenBeforeLater(snapshot, n - 1, pids[i], pids[j]);
    } else {
      assert pids[i] in pids && p.pid !in pids;
      var m :| 0 <= m < n - 1 && snapshot[m].pid == pids[i];
      NewPidSeenLast(snapshot, n, m);
    }
  }

  lemma {:induction false} SeenBeforeLater(snapshot: seq<Process>, n: nat, pid: int, other: int)
    requires n < |snapshot| && SeenBefore(snapshot, n, pid, other)
    ensures SeenBefore(snapshot, n + 1, pid, other)
  {
  }

  lemma {:induction false} NewPidSeenLast(snapshot: seq<Process>, n: nat, m: nat)
    requires 0 < n <= |snapshot| && m < n - 1
    requires forall k :: 0 <= k < n - 1 ==> snapshot[k].pid != snapshot[n - 1].pid
    ensures SeenBefore(snapshot, n, snapshot[m].pid, snapshot[n - 1].pid)
  {
    assert NotSeen(snapshot, m, snapshot[n - 1].pid);
  }

  /** The pids are those of entries before the n-th, in the order of the table. */
  ghost predicate InTableOrder(table: seq<Process>, n: nat, pids: seq<int>)
    requires n <= |table|
  {
    && (forall a :: 0 <= a < |pids| ==> pids[a] in Pids(table)[..n])
    && forall a, b :: 0 <= a < b < |pids| ==> StandsBefore(Pids(table)[..n], pids[a], pids[b])
  }

  lemma {:induction false} InTableOrderNext(table: seq<Process>, n: nat, pids: seq<int>)
    requires n < |table| && InTableOrder(table, n, pids)
    ensures InTableOrder(table, n + 1, pids) && InTableOrder(table, n + 1, pids + [table[n].pid])
  {
    var ps, r := Pids(table)[..n], pids + [table[n].pid];
    assert Pids(table)[..n + 1] == ps + [table[n].pid];
    forall a, b | 0 <= a < b < |r| ensures StandsBefore(ps + [table[n].pid], r[a], r[b]) {
      if b < |pids| {
        StandsAppend(ps, r[a], r[b], table[n].pid);
      } else {
        assert r[a] == pids[a] && pids[a] in ps;
        StandsAppend(ps, r[a], r[a], table[n].pid);
      }
    }
    forall a, b | 0 <= a < b < |pids| ensures StandsBefore(ps + [table[n].pid], pids[a], pids[b]) {
      StandsAppend(ps, pids[a], pids[b], table[n].pid);
    }
  }

  lemma {:induction false} StandsAppend(s: seq<int>, x: int, y: int, z: int)
    ensures StandsBefore(s, x, y) ==> StandsBefore(s + [z], x, y)
    ensures x in s ==> StandsBefore(s + [z], x, z)
  {
    BeforeAppend(s, x, y, z);
  }

  lemma {:induction false} ListsInTableOrder(table: seq<Process>, parent: int, n: nat)
    requires n <= |table|
    ensures InTableOrder(table, n, ChildrenOf(table, parent, n)) && InTableOrder(table, n, RootsOf(table, n))
  {
    if n > 0 {
      hide InTableOrder, HasParent;
      ListsInTableOrder(table, parent, n - 1);
      InTableOrderNext(table, n - 1, ChildrenOf(table, parent, n - 1));
      InTableOrderNext(table, n - 1, RootsOf(table, n - 1));
      assert ChildrenOf(table, parent, n - 1) + [] == ChildrenOf(table, parent, n - 1);
      assert RootsOf(table, n - 1) + [] == RootsOf(table, n - 1);
    }
  }

  ghost predicate InSnapshotOrder(snapshot: seq<Process>, pids: seq<int>) {
    forall a, b :: 0 <= a < b < |pids| ==> SeenBefore(snapshot, |snapshot|, pids[a], pids[b])
  }

  lemma {:induction false} TableOrderIsSnapshotOrder(snapshot: seq<Process>, pids: seq<int>)
    requires var table := TableOf(snapshot, |snapshot|); InTableOrder(table, |table|, pids)
    ensures InSnapshotOrder(snapshot, pids)
  {
    hide SeenBefore, Pids;
    var table := TableOf(snapshot, |snapshot|);
    assert Pids(table)[..|table|] == Pids(table);
    forall a, b | 0 <= a < b < |pids| ensures SeenBefore(snapshot, |snapshot|, pids[a], pids[b]) {
      var i, j :| 0 <= i < j < |Pids(table)| && Pids(table)[i] == pids[a] && Pids(table)[j] == pids[b];
      TableInOrder(snapshot, |snapshot|, i, j);
    }
  }

  /** Roots and the children of every process stand in the order in which the snapshot first names them. */
  lemma {:induction false} ForestInSnapshotOrder(snapshot: seq<Process>, parent: int)
    ensures var f := ForestOf(TableOf(snapshot, |snapshot|));
            && InSnapshotOrder(snapshot, f.roots)
            && (parent in f.children ==> InSnapshotOrder(snapshot, f.children[parent]))
  {
    hide InTableOrder, InSnapshotOrder, ChildrenOf, RootsOf, Pids;
    var table := TableOf(snapshot, |snapshot|);
    ListsInTableOrder(table, parent, |table|);
    TableOrderIsSnapshotOrder(snapshot, Roots(table));
    TableOrderIsSnapshotOrder(snapshot, Children(table, parent));
  }
}
