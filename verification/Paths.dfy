/**
 * What a leaf path means: the way down to a scalar, one key or index at a time. The leaves of a state
 * are its scalars, each once, with the text of the way to it, in the order in which the ways are sorted.
 */
module Paths {
  import opened Wrappers
  import opened Text
  import opened Sorting
  import opened Json
  import JsonDecode
  import opened Flatten

  datatype Move = Key(key: string) | Index(index: nat)

  type Way = seq<Move>

  /** The text of a way below a prefix: a dot before every key but a first one, brackets around every index. */
  function WayText(prefix: string, way: Way): string
    decreases |way|
  {
    if way == [] then prefix
    else match way[0]
      case Key(k) => WayText(if prefix == "" then k else prefix + "." + k, way[1..])
      case Index(i) => WayText(prefix + "[" + Decimal(i) + "]", way[1..])
  }

  /** What a way leads to. */
  function At(v: Json, way: Way): Option<Json>
    decreases |way|
  {
    if way == [] then Some(v)
    else match way[0]
      case Key(k) => if v.Obj? && Get(v.fields, k).Some? then At(Get(v.fields, k).value, way[1..]) else None
      case Index(i) => if v.Arr? && i < |v.items| then At(v.items[i], way[1..]) else None
  }

  predicate IsLeafWay(v: Json, way: Way) {
    At(v, way).Some? && IsScalar(At(v, way).value)
  }

  /** One move comes before another: keys by code points, indices by size. */
  predicate MoveLess(a: Move, b: Move) {
    match (a, b)
    case (Key(k), Key(l)) => k != l && Le(CodePoints)(k, l)
    case (Index(i), Index(j)) => i < j
    case _ => false
  }

  /** The ways part at the n-th move. */
  predicate PartsAt(a: Way, b: Way, n: int) {
    0 <= n < |a| && n < |b| && a[..n] == b[..n] && MoveLess(a[n], b[n])
  }

  ghost predicate Precedes(a: Way, b: Way) {
    exists n :: PartsAt(a, b, n)
  }

  // ----- the ways to the leaves, in the order of the leaves -----

  ghost function Through(move: Move, ways: seq<Way>): (r: seq<Way>)
    ensures |r| == |ways|
    ensures forall i :: 0 <= i < |r| ==> r[i] == [move] + ways[i]
  {
    if ways == [] then [] else [[move] + ways[0]] + Through(move, ways[1..])
  }

  ghost function Ways(v: Json): seq<Way>
    decreases v, 0
  {
    match v
    case Obj(fields) => KeyWays(fields, SortedKeys(CodePoints, fields))
    case Arr(items) => ItemWays(items, 0)
    case _ => [[]]
  }

  ghost function KeyWays(fields: seq<Field>, keys: seq<string>): seq<Way>
    requires forall k :: k in keys ==> k in Keys(fields)
    decreases fields, |keys|
  {
    if keys == [] then [] else
      Through(Key(keys[0]), Ways(fields[IndexOf(fields, keys[0])].value)) + KeyWays(fields, keys[1..])
  }

  ghost function ItemWays(items: seq<Json>, index: nat): seq<Way>
    decreases items, 0
  {
    if items == [] then [] else Through(Index(index), Ways(items[0])) + ItemWays(items[1..], index + 1)
  }

  /** The leaf that a way leads to. */
  ghost predicate Describes(v: Json, prefix: string, way: Way, leaf: Leaf) {
    At(v, way) == Some(leaf.value) && WayText(prefix, way) == leaf.path
  }

  // ----- every leaf has its way -----

  ghost predicate DescribesAll(v: Json, prefix: string, ways: seq<Way>, leaves: seq<Leaf>) {
    |ways| == |leaves| && forall i :: 0 <= i < |ways| ==> Describes(v, prefix, ways[i], leaves[i])
  }

  lemma {:induction false} DescribesJoin(
    v: Json, prefix: string, xs: seq<Way>, ls: seq<Leaf>, ys: seq<Way>, ms: seq<Leaf>)
    requires DescribesAll(v, prefix, xs, ls) && DescribesAll(v, prefix, ys, ms)
    ensures DescribesAll(v, prefix, xs + ys, ls + ms)
  {
    hide Describes;
  }

  lemma {:induction false} GetIs(fields: seq<Field>, key: string)
    requires key in Keys(fields)
    ensures Get(fields, key) == Some(fields[IndexOf(fields, key)].value)
  {
    if fields[0].key != key {
      GetIs(fields[1..], key);
    }
  }

  lemma {:induction false} MoveDown(v: Json, prefix: string, move: Move, inner: Json, below: string, way: Way, leaf: Leaf)
    requires At(v, [move]) == Some(inner) && WayText(prefix, [move]) == below
    requires Describes(inner, below, way, leaf)
    ensures Describes(v, prefix, [move] + way, leaf)
  {
    assert ([move] + way)[1..] == way && [move][1..] == [];
  }

  lemma {:induction false} ThroughDescribes(
    v: Json, prefix: string, move: Move, inner: Json, below: string, ways: seq<Way>, leaves: seq<Leaf>)
    requires At(v, [move]) == Some(inner) && WayText(prefix, [move]) == below
    requires DescribesAll(inner, below, ways, leaves)
    ensures DescribesAll(v, prefix, Through(move, ways), leaves)
  {
    hide Describes, At, WayText;
    forall i | 0 <= i < |ways| ensures Describes(v, prefix, Through(move, ways)[i], leaves[i]) {
      assert Describes(inner, below, ways[i], leaves[i]);
      MoveDown(v, prefix, move, inner, below, ways[i], leaves[i]);
    }
  }

  lemma {:induction false} OneMove(v: Json, prefix: string, move: Move)
    ensures WayText(prefix, [move]) == if move.Key? then KeyPath(prefix, move.key) else IndexPath(prefix, move.index)
    ensures move.Key? && v.Obj? && move.key in Keys(v.fields) ==>
              At(v, [move]) == Some(v.fields[IndexOf(v.fields, move.key)].value)
    ensures move.Index? && v.Arr? && move.index < |v.items| ==> At(v, [move]) == Some(v.items[move.index])
  {
    assert [move][1..] == [];
    if move.Key? && v.Obj? && move.key in Keys(v.fields) {
      GetIs(v.fields, move.key);
    }
  }

  lemma {:induction false} WaysDescribe(v: Json, prefix: string)
    ensures DescribesAll(v, prefix, Ways(v), Leaves(v, prefix))
    decreases v, 1
  {
    match v
    case Obj(fields) => KeyWaysDescribe(v, SortedKeys(CodePoints, fields), prefix);
    case Arr(items) =>
      assert items[0..] == items;
      ItemWaysDescribe(v, 0, prefix);
    case _ =>
  }

  lemma {:induction false} KeyWaysDescribe(v: Json, keys: seq<string>, prefix: string)
    requires v.Obj? && forall k :: k in keys ==> k in Keys(v.fields)
    ensures DescribesAll(v, prefix, KeyWays(v.fields, keys), KeyLeaves(v.fields, keys, prefix))
    decreases v, 0, |keys|
  {
    hide Describes, Leaves, Ways;
    if keys != [] {
      var key := keys[0];
      var inner := v.fields[IndexOf(v.fields, key)].value;
      WaysDescribe(inner, KeyPath(prefix, key));
      OneMove(v, prefix, Key(key));
      ThroughDescribes(v, prefix, Key(key), inner, KeyPath(prefix, key), Ways(inner), Leaves(inner, KeyPath(prefix, key)));
      KeyWaysDescribe(v, keys[1..], prefix);
      DescribesJoin(v, prefix, Through(Key(key), Ways(inner)), Leaves(inner, KeyPath(prefix, key)),
                    KeyWays(v.fields, keys[1..]), KeyLeaves(v.fields, keys[1..], prefix));
    }
  }

  lemma {:induction false} ItemWaysDescribe(v: Json, n: nat, prefix: string)
    requires v.Arr? && n <= |v.items|
    ensures DescribesAll(v, prefix, ItemWays(v.items[n..], n), ItemLeaves(v.items[n..], n, prefix))
    decreases v, 0, |v.items| - n
  {
    hide Describes, Leaves, Ways;
    if n < |v.items| {
      var inner, below := v.items[n], IndexPath(prefix, n);
      assert v.items[n..][1..] == v.items[n + 1..];
      WaysDescribe(inner, below);
      OneMove(v, prefix, Index(n));
      ThroughDescribes(v, prefix, Index(n), inner, below, Ways(inner), Leaves(inner, below));
      ItemWaysDescribe(v, n + 1, prefix);
      DescribesJoin(v, prefix, Through(Index(n), Ways(inner)), Leaves(inner, below),
                    ItemWays(v.items[n + 1..], n + 1), ItemLeaves(v.items[n + 1..], n + 1, prefix));
    }
  }

  // ----- every way is taken -----

  lemma {:induction false} ThroughMembers(move: Move, ways: seq<Way>, way: Way)
    ensures [move] + way in Through(move, ways) <==> way in ways
  {
    var r := Through(move, ways);
    if way in ways {
      var i :| 0 <= i < |ways| && ways[i] == way;
      assert r[i] == [move] + way;
    }
    if [move] + way in r {
      var i :| 0 <= i < |r| && r[i] == [move] + way;
      assert ([move] + ways[i])[1..] == ways[i] && ([move] + way)[1..] == way;
    }
  }

  lemma {:induction false} EveryWayTaken(v: Json, way: Way)
    requires IsLeafWay(v, way)
    ensures way in Ways(v)
    decreases v
  {
    hide Ways, Keys;
    match v
    case Obj(fields) =>
      assert way != [] && way[0].Key? by { FirstMove(v, way); }
      GetKnown(fields, way[0].key);
      GetIs(fields, way[0].key);
      var inner := fields[IndexOf(fields, way[0].key)].value;
      EveryWayTaken(inner, way[1..]);
      KeyWayTaken(fields, way[0].key, way);
    case Arr(items) =>
      assert way != [] && way[0].Index? by { FirstMove(v, way); }
      EveryWayTaken(items[way[0].index], way[1..]);
      ItemWayTaken(items, way[0].index, way);
    case _ => NoMoves(v, way);
  }

  lemma {:induction false} FirstMove(v: Json, way: Way)
    requires IsLeafWay(v, way) && !IsScalar(v)
    ensures way != [] && (way[0].Key? <==> v.Obj?)
  {
  }

  lemma {:induction false} NoMoves(v: Json, way: Way)
    requires IsLeafWay(v, way) && IsScalar(v)
    ensures way in Ways(v)
  {
    assert way == [];
  }

  lemma {:induction false} KeyWayTaken(fields: seq<Field>, key: string, way: Way)
    requires key in Keys(fields) && way != [] && way[0] == Key(key)
    requires way[1..] in Ways(fields[IndexOf(fields, key)].value)
    ensures way in Ways(Obj(fields))
  {
    assert Ways(Obj(fields)) == KeyWays(fields, SortedKeys(CodePoints, fields));
    hide Ways;
    assert way == [Key(key)] + way[1..];
    ThroughMembers(Key(key), Ways(fields[IndexOf(fields, key)].value), way[1..]);
    InKeyWays(fields, SortedKeys(CodePoints, fields), key, way);
  }

  lemma {:induction false} ItemWayTaken(items: seq<Json>, index: nat, way: Way)
    requires index < |items| && way != [] && way[0] == Index(index) && way[1..] in Ways(items[index])
    ensures way in Ways(Arr(items))
  {
    assert Ways(Arr(items)) == ItemWays(items, 0);
    hide Ways;
    assert way == [Index(index)] + way[1..];
    ThroughMembers(Index(index), Ways(items[index]), way[1..]);
    InItemWays(items, 0, index, way);
  }

  lemma {:induction false} GetKnown(fields: seq<Field>, key: string)
    requires Get(fields, key).Some?
    ensures key in Keys(fields)
  {
    var f := Field(key, Get(fields, key).value);
    var i :| 0 <= i < |fields| && fields[i] == f;
    assert Keys(fields)[i] == key;
  }

  lemma {:induction false} InKeyWays(fields: seq<Field>, keys: seq<string>, key: string, way: Way)
    requires (forall k :: k in keys ==> k in Keys(fields)) && key in keys
    requires way in Through(Key(key), Ways(fields[IndexOf(fields, key)].value))
    ensures way in KeyWays(fields, keys)
  {
    hide Ways;
    if keys[0] != key {
      InKeyWays(fields, keys[1..], key, way);
    }
  }

  lemma {:induction false} InItemWays(items: seq<Json>, index: nat, n: nat, way: Way)
    requires n < |items| && way in Through(Index(index + n), Ways(items[n]))
    ensures way in ItemWays(items, index)
    decreases n
  {
    hide Ways;
    if n > 0 {
      InItemWays(items[1..], index + 1, n - 1, way);
    }
  }

  // ----- the ways are sorted -----

  ghost predicate Ascending(ways: seq<Way>) {
    forall i, j :: 0 <= i < j < |ways| ==> Precedes(ways[i], ways[j])
  }

  /** The first move of each way is a key among `keys`. */
  ghost predicate KeysFirst(ways: seq<Way>, keys: seq<string>) {
    forall i :: 0 <= i < |ways| ==> ways[i] != [] && ways[i][0].Key? && ways[i][0].key in keys
  }

  ghost predicate IndicesFirst(ways: seq<Way>, from: nat) {
    forall i :: 0 <= i < |ways| ==> ways[i] != [] && ways[i][0].Index? && ways[i][0].index >= from
  }

  lemma {:induction false} ThroughPrecedes(move: Move, a: Way, b: Way)
    requires Precedes(a, b)
    ensures Precedes([move] + a, [move] + b)
  {
    var n :| PartsAt(a, b, n);
    assert ([move] + a)[..n + 1] == [move] + a[..n] && ([move] + b)[..n + 1] == [move] + b[..n];
    assert PartsAt([move] + a, [move] + b, n + 1);
  }

  lemma {:induction false} AscendingJoin(move: Move, ways: seq<Way>, rest: seq<Way>)
    requires Ascending(ways) && Ascending(rest)
    requires forall i :: 0 <= i < |rest| ==> rest[i] != [] && MoveLess(move, rest[i][0])
    ensures Ascending(Through(move, ways) + rest)
  {
    hide MoveLess, Precedes;
    var first := Through(move, ways);
    var all := first + rest;
    forall i, j | 0 <= i < j < |all| ensures Precedes(all[i], all[j]) {
      if j < |first| {
        ThroughPrecedes(move, ways[i], ways[j]);
      } else if i < |first| {
        PartAtOnce(all[i], all[j]);
      } else {
        assert Precedes(rest[i - |first|], rest[j - |first|]);
      }
    }
  }

  lemma {:induction false} PartAtOnce(a: Way, b: Way)
    requires a != [] && b != [] && MoveLess(a[0], b[0])
    ensures Precedes(a, b)
  {
    assert PartsAt(a, b, 0);
  }

  lemma {:induction false} WaysAscend(v: Json)
    requires WellFormed(v)
    ensures Ascending(Ways(v))
    decreases v, 1
  {
    match v
    case Obj(fields) =>
      KeysArePrintedInOrder(CodePoints, fields);
      KeyWaysAscend(fields, SortedKeys(CodePoints, fields));
    case Arr(items) => ItemWaysAscend(items, 0);
    case _ =>
  }

  lemma {:induction false} KeyWaysAscend(fields: seq<Field>, keys: seq<string>)
    requires forall i :: 0 <= i < |fields| ==> WellFormed(fields[i].value)
    requires (forall k :: k in keys ==> k in Keys(fields)) && Sorted(keys, Le(CodePoints)) && NoDuplicates(keys)
    ensures Ascending(KeyWays(fields, keys)) && KeysFirst(KeyWays(fields, keys), keys)
    decreases fields, |keys|
  {
    hide Ways, Ascending, WellFormed, Sorted, NoDuplicates, Keys, IndexOf;
    if keys == [] {
      NoWays();
    } else {
      var key, rest := keys[0], keys[1..];
      var inner := fields[IndexOf(fields, key)].value;
      TailInOrder(keys);
      WaysAscend(inner);
      KeyWaysAscend(fields, rest);
      var others := KeyWays(fields, rest);
      forall i | 0 <= i < |others| ensures MoveLess(Key(key), others[i][0]) {
        KeyBehind(keys, others[i][0].key);
      }
      AscendingJoin(Key(key), Ways(inner), others);
    }
  }

  lemma {:induction false} TailInOrder(keys: seq<string>)
    requires keys != [] && Sorted(keys, Le(CodePoints)) && NoDuplicates(keys)
    ensures Sorted(keys[1..], Le(CodePoints)) && NoDuplicates(keys[1..])
  {
    var rest := keys[1..];
    assert forall i :: 0 <= i < |rest| ==> rest[i] == keys[i + 1];
  }

  lemma {:induction false} NoWays()
    ensures Ascending([])
  {
  }

  lemma {:induction false} KeyBehind(keys: seq<string>, key: string)
    requires keys != [] && Sorted(keys, Le(CodePoints)) && NoDuplicates(keys) && key in keys[1..]
    ensures MoveLess(Key(keys[0]), Key(key))
  {
    var i :| 0 <= i < |keys[1..]| && keys[1..][i] == key;
    assert keys[i + 1] == key;
    var le := Le(CodePoints);
    assert le(keys[0], keys[i + 1]);
  }

  lemma {:induction false} ItemWaysAscend(items: seq<Json>, index: nat)
    requires forall i :: 0 <= i < |items| ==> WellFormed(items[i])
    ensures Ascending(ItemWays(items, index)) && IndicesFirst(ItemWays(items, index), index)
    decreases items, 0
  {
    hide Ways, Ascending, WellFormed;
    if items == [] {
      NoWays();
    } else {
      WaysAscend(items[0]);
      ItemWaysAscend(items[1..], index + 1);
      AscendingJoin(Index(index), Ways(items[0]), ItemWays(items[1..], index + 1));
    }
  }

  /**
   * The leaves of a state are its scalars, each with the text of the way to it: all of them, none twice, sorted by
   * the keys and indices on the way.
   */
  lemma {:induction false} LeavesAreScalarsInOrder(state: Json)
    requires WellFormed(state)
    ensures exists ways: seq<Way> ::
              && DescribesAll(state, "", ways, StateLeaves(state))
              && Ascending(ways)
              && forall way :: IsLeafWay(state, way) <==> way in ways
  {
    var ways := Ways(state);
    WaysDescribe(state, "");
    WaysAscend(state);
    forall way ensures IsLeafWay(state, way) <==> way in ways {
      if IsLeafWay(state, way) {
        EveryWayTaken(state, way);
      }
      if way in ways {
        var i :| 0 <= i < |ways| && ways[i] == way;
        assert Describes(state, "", ways[i], StateLeaves(state)[i]);
      }
    }
  }
}
