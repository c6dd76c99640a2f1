/**
 * Flattening a nested state to its leaves. For states whose paths parse uniquely the leaves are
 * pairwise distinct and determine the state up to the order of keys.
 */
module Flatten {
  import opened Wrappers
  import opened Text
  import opened Sorting
  import opened Json
  import JsonDecode

  datatype Leaf = Leaf(path: string, value: Json)

  function KeyPath(prefix: string, key: string): string {
    if prefix != "" then prefix + "." + key else key
  }

  function IndexPath(prefix: string, index: nat): string {
    prefix + "[" + Digits(index) + "]"
  }

  // ----- the leaves of a value under a path -----

  ghost function Leaves(v: Json, prefix: string): (r: seq<Leaf>)
    ensures forall i :: 0 <= i < |r| ==> IsScalar(r[i].value)
    decreases v, 0
  {
    match v
    case Obj(fields) => KeyLeaves(fields, SortedKeys(CodePoints, fields), prefix)
    case Arr(items) => ItemLeaves(items, 0, prefix)
    case _ => [Leaf(prefix, v)]
  }

  ghost function KeyLeaves(fields: seq<Field>, keys: seq<string>, prefix: string): (r: seq<Leaf>)
    requires forall k :: k in keys ==> k in Keys(fields)
    ensures forall i :: 0 <= i < |r| ==> IsScalar(r[i].value)
    decreases fields, |keys|
  {
    if keys == [] then [] else
      Leaves(fields[IndexOf(fields, keys[0])].value, KeyPath(prefix, keys[0]))
      + KeyLeaves(fields, keys[1..], prefix)
  }

  ghost function ItemLeaves(items: seq<Json>, index: nat, prefix: string): (r: seq<Leaf>)
    ensures forall i :: 0 <= i < |r| ==> IsScalar(r[i].value)
    decreases items, 0
  {
    if items == [] then [] else
      Leaves(items[0], IndexPath(prefix, index)) + ItemLeaves(items[1..], index + 1, prefix)
  }

  lemma {:induction false} KeyLeavesFrom(fields: seq<Field>, keys: seq<string>, n: nat, prefix: string)
    requires n < |keys| && forall k :: k in keys ==> k in Keys(fields)
    ensures keys[n] in Keys(fields) && forall k :: k in keys[n + 1..] ==> k in Keys(fields)
    ensures KeyLeaves(fields, keys[n..], prefix) ==
            Leaves(fields[IndexOf(fields, keys[n])].value, KeyPath(prefix, keys[n]))
            + KeyLeaves(fields, keys[n + 1..], prefix)
  {
    assert keys[n..][1..] == keys[n + 1..];
  }

  lemma {:induction false} ItemLeavesFrom(items: seq<Json>, n: nat, prefix: string)
    requires n < |items|
    ensures ItemLeaves(items[n..], n, prefix) ==
            Leaves(items[n], IndexPath(prefix, n)) + ItemLeaves(items[n + 1..], n + 1, prefix)
  {
    assert items[n..][1..] == items[n + 1..];
  }

  /** `_flatten_state`. */
  method FlattenState(value: Json, prefix: string) returns (leaves: seq<Leaf>)
    ensures leaves == Leaves(value, prefix)
    decreases value, 1
  {
    match value {
      case Obj(fields) => leaves := FlattenDict(fields, SortedKeys(CodePoints, fields), prefix);
      case Arr(items) => leaves := FlattenList(items, prefix);
      case _ => leaves := [Leaf(prefix, value)];
    }
  }

  /** The dictionary branch: the leaves of each entry, in the order of the sorted keys. */
  method FlattenDict(fields: seq<Field>, keys: seq<string>, prefix: string) returns (leaves: seq<Leaf>)
    requires forall k :: k in keys ==> k in Keys(fields)
    ensures leaves == KeyLeaves(fields, keys, prefix)
    decreases fields, 0
  {
    hide Leaves, KeyPath, Keys, IndexOf;
    leaves := [];
    for n := 0 to |keys|
      invariant forall k :: k in keys[n..] ==> k in Keys(fields)
      invariant leaves + KeyLeaves(fields, keys[n..], prefix) == KeyLeaves(fields, keys, prefix)
    {
      KeyLeavesFrom(fields, keys, n, prefix);
      var part := FlattenState(fields[IndexOf(fields, keys[n])].value, KeyPath(prefix, keys[n]));
      leaves := leaves + part;
    }
  }

  /** The list branch: the leaves of each item, in order. */
  method FlattenList(items: seq<Json>, prefix: string) returns (leaves: seq<Leaf>)
    ensures leaves == ItemLeaves(items, 0, prefix)
    decreases items, 0
  {
    hide Leaves, IndexPath;
    leaves := [];
    for n := 0 to |items|
      invariant leaves + ItemLeaves(items[n..], n, prefix) == ItemLeaves(items, 0, prefix)
    {
      hide ItemLeaves;
      ItemLeavesFrom(items, n, prefix);
      var part := FlattenState(items[n], IndexPath(prefix, n));
      leaves := leaves + part;
    }
  }

  // ----- trimmed states -----

  const STOPS: set<char> := {'.', '['}

  /** A key that cannot be mistaken for a longer path. */
  predicate CleanKey(k: string) {
    k != "" && Clean(k, STOPS)
  }

  /** Clean keys at every depth, and a leaf below everything but the placeholders in lists. */
  ghost predicate Trimmed(v: Json)
    decreases v, 0
  {
    match v
    case Arr(items) => items != [] && TrimmedItems(items)
    case Obj(fields) =>
      && fields != []
      && forall i :: 0 <= i < |fields| ==> CleanKey(fields[i].key) && Trimmed(fields[i].value)
    case _ => true
  }

  /** Items with leaves, the last one included; an empty dictionary keeps the place of an item without. */
  ghost predicate TrimmedItems(items: seq<Json>)
    decreases items, 0
  {
    && (items != [] ==> Trimmed(items[|items| - 1]))
    && forall i :: 0 <= i < |items| ==> items[i] == Obj([]) || Trimmed(items[i])
  }

  /** A state whose leaf paths parse uniquely and that holds no needless container; the empty dictionary is one. */
  ghost predicate TrimmedState(v: Json) {
    v.Obj? && WellFormed(v) && (v.fields == [] || Trimmed(v))
  }

  // ----- leaves in the given order of keys -----

  ghost function Flat(v: Json, prefix: string): seq<Leaf>
    decreases v, 0
  {
    match v
    case Obj(fields) => FlatFields(fields, prefix)
    case Arr(items) => FlatItems(items, 0, prefix)
    case _ => [Leaf(prefix, v)]
  }

  ghost function FlatFields(fields: seq<Field>, prefix: string): seq<Leaf>
    decreases fields, 0
  {
    if fields == [] then [] else
      Flat(fields[0].value, KeyPath(prefix, fields[0].key)) + FlatFields(fields[1..], prefix)
  }

  ghost function FlatItems(items: seq<Json>, index: nat, prefix: string): seq<Leaf>
    decreases items, 0
  {
    if items == [] then [] else
      Flat(items[0], IndexPath(prefix, index)) + FlatItems(items[1..], index + 1, prefix)
  }

  lemma {:induction false} LeavesOfNormal(v: Json, prefix: string)
    ensures Leaves(v, prefix) == Flat(Normal(CodePoints, v), prefix)
    decreases v, 0
  {
    match v
    case Obj(fields) => KeyLeavesOfNormal(fields, SortedKeys(CodePoints, fields), prefix);
    case Arr(items) => ItemLeavesOfNormal(items, 0, prefix);
    case _ =>
  }

  lemma {:induction false} KeyLeavesOfNormal(fields: seq<Field>, keys: seq<string>, prefix: string)
    requires forall k :: k in keys ==> k in Keys(fields)
    ensures KeyLeaves(fields, keys, prefix) == FlatFields(NormalFields(CodePoints, fields, keys), prefix)
    decreases fields, |keys|
  {
    if keys != [] {
      var r := NormalFields(CodePoints, fields, keys);
      LeavesOfNormal(fields[IndexOf(fields, keys[0])].value, KeyPath(prefix, keys[0]));
      KeyLeavesOfNormal(fields, keys[1..], prefix);
      assert r[1..] == NormalFields(CodePoints, fields, keys[1..]);
    }
  }

  lemma {:induction false} ItemLeavesOfNormal(items: seq<Json>, index: nat, prefix: string)
    ensures ItemLeaves(items, index, prefix) == FlatItems(NormalItems(CodePoints, items), index, prefix)
    decreases items, 0
  {
    if items != [] {
      LeavesOfNormal(items[0], IndexPath(prefix, index));
      ItemLeavesOfNormal(items[1..], index + 1, prefix);
      assert NormalItems(CodePoints, items)[1..] == NormalItems(CodePoints, items[1..]);
    }
  }

  // ----- the first step of a path below a prefix -----

  /** `path` is `prefix`, or continues it with a new step. */
  predicate Extends(path: string, prefix: string) {
    prefix <= path && (|path| > |prefix| ==> path[|prefix|] in STOPS)
  }

  datatype Container = Dict | List

  /** The key or the index with which `path` continues the prefix of a container. */
  function Step(path: string, prefix: string, kind: Container): string {
    if |path| <= |prefix| then ""
    else if kind.List? then Before(path[|prefix| + 1..], {']'})
    else if prefix == "" then Before(path, STOPS)
    else Before(path[|prefix| + 1..], STOPS)
  }

  lemma {:induction false} KeyStepOf(path: string, prefix: string, key: string)
    requires CleanKey(key) && Extends(path, KeyPath(prefix, key))
    ensures prefix <= path && |prefix| < |path|
    ensures prefix != "" ==> path[|prefix|] == '.'
    ensures prefix == "" ==> path[0] !in STOPS
    ensures Step(path, prefix, Dict) == key
  {
    var full := KeyPath(prefix, key);
    var rest := path[|full|..];
    assert path == full + rest;
    BeforeClean(key, rest, STOPS);
    if prefix != "" {
      assert path == prefix + "." + key + rest;
      assert path[|prefix| + 1..] == key + rest;
      assert path[..|prefix|] == prefix;
    } else {
      assert path[0] == key[0];
    }
  }

  lemma {:induction false} IndexStepOf(path: string, prefix: string, index: nat)
    requires Extends(path, IndexPath(prefix, index))
    ensures prefix <= path && |prefix| < |path| && path[|prefix|] == '['
    ensures Step(path, prefix, List) == Digits(index)
  {
    var full := IndexPath(prefix, index);
    var rest := path[|full|..];
    assert path == full + rest;
    assert path == prefix + ("[" + Digits(index) + "]" + rest);
    assert path[|prefix| + 1..] == Digits(index) + ("]" + rest);
    BeforeClean(Digits(index), "]" + rest, {']'});
    assert path[..|prefix|] == prefix;
  }

  // ----- leaf paths below a prefix -----

  ghost predicate AllExtend(s: seq<Leaf>, prefix: string) {
    forall i :: 0 <= i < |s| ==> Extends(s[i].path, prefix)
  }

  ghost predicate AllStep(s: seq<Leaf>, prefix: string, kind: Container, step: string) {
    forall i :: 0 <= i < |s| ==> Step(s[i].path, prefix, kind) == step
  }

  ghost predicate NoneStep(s: seq<Leaf>, prefix: string, kind: Container, step: string) {
    forall i :: 0 <= i < |s| ==> Step(s[i].path, prefix, kind) != step
  }

  /** How the paths of a value of each kind continue the prefix. */
  ghost predicate Continues(v: Json, path: string, prefix: string) {
    && prefix <= path
    && (IsScalar(v) <==> path == prefix)
    && (v.Arr? ==> |prefix| < |path| && path[|prefix|] == '[')
    && (v.Obj? ==> |prefix| < |path| && path[|prefix|] != '[' && (prefix != "" ==> path[|prefix|] == '.'))
  }

  lemma {:induction false} FlatContinues(v: Json, prefix: string)
    requires Trimmed(v)
    ensures Flat(v, prefix) != []
    ensures forall i :: 0 <= i < |Flat(v, prefix)| ==> Continues(v, Flat(v, prefix)[i].path, prefix)
    decreases v, 0
  {
    match v
    case Obj(fields) => FlatFieldsContinue(fields, prefix);
    case Arr(items) => FlatItemsContinue(items, 0, prefix);
    case _ =>
  }

  lemma {:induction false} BlockExtends(v: Json, prefix: string)
    requires Trimmed(v) && prefix != ""
    ensures Flat(v, prefix) != [] && AllExtend(Flat(v, prefix), prefix)
    decreases v, 1
  {
    FlatContinues(v, prefix);
  }

  lemma {:induction false} FieldBlock(v: Json, prefix: string, key: string)
    requires Trimmed(v) && CleanKey(key)
    ensures var block := Flat(v, KeyPath(prefix, key));
            && block != [] && AllStep(block, prefix, Dict, key)
            && forall i :: 0 <= i < |block| ==> Continues(Obj([]), block[i].path, prefix)
    decreases v, 2
  {
    var block := Flat(v, KeyPath(prefix, key));
    BlockExtends(v, KeyPath(prefix, key));
    forall i | 0 <= i < |block|
      ensures Step(block[i].path, prefix, Dict) == key
      ensures Continues(Obj([]), block[i].path, prefix)
    {
      KeyStepOf(block[i].path, prefix, key);
    }
  }

  lemma {:induction false} ItemBlock(v: Json, prefix: string, index: nat)
    requires v == Obj([]) || Trimmed(v)
    ensures var block := Flat(v, IndexPath(prefix, index));
            && (block != [] <==> v != Obj([])) && AllStep(block, prefix, List, Digits(index))
            && forall i :: 0 <= i < |block| ==> Continues(Arr([]), block[i].path, prefix)
    decreases v, 2
  {
    var block := Flat(v, IndexPath(prefix, index));
    if v != Obj([]) {
      BlockExtends(v, IndexPath(prefix, index));
    }
    forall i | 0 <= i < |block|
      ensures Step(block[i].path, prefix, List) == Digits(index)
      ensures Continues(Arr([]), block[i].path, prefix)
    {
      IndexStepOf(block[i].path, prefix, index);
    }
  }

  lemma {:induction false} FlatFieldsContinue(fields: seq<Field>, prefix: string)
    requires forall i :: 0 <= i < |fields| ==> CleanKey(fields[i].key) && Trimmed(fields[i].value)
    ensures var r := FlatFields(fields, prefix);
            && (fields != [] ==> r != [])
            && forall i :: 0 <= i < |r| ==>
                 && Continues(Obj([]), r[i].path, prefix)
                 && Step(r[i].path, prefix, Dict) in Keys(fields)
    decreases fields, 0
  {
    if fields != [] {
      FieldBlock(fields[0].value, prefix, fields[0].key);
      FlatFieldsContinue(fields[1..], prefix);
    }
  }

  /** The path continues the list's prefix with an index from `index` on. */
  ghost predicate StepFrom(path: string, prefix: string, index: nat) {
    exists j: nat :: index <= j && Step(path, prefix, List) == Digits(j)
  }

  lemma {:induction false} FlatItemsContinue(items: seq<Json>, index: nat, prefix: string)
    requires TrimmedItems(items)
    ensures var r := FlatItems(items, index, prefix);
            && (items != [] ==> r != [])
            && forall i :: 0 <= i < |r| ==>
                 && Continues(Arr([]), r[i].path, prefix)
                 && StepFrom(r[i].path, prefix, index)
    decreases items, 0
  {
    if items != [] {
      ItemBlock(items[0], prefix, index);
      FlatItemsContinue(items[1..], index + 1, prefix);
    }
  }

  // ----- injectivity -----

  /** Two lists that start with the block of one step agree on the block and on the rest. */
  lemma {:induction false} SplitBlocks(
    xs: seq<Leaf>, xr: seq<Leaf>, ys: seq<Leaf>, yr: seq<Leaf>, prefix: string, kind: Container, step: string)
    requires xs + xr == ys + yr
    requires AllStep(xs, prefix, kind, step) && AllStep(ys, prefix, kind, step)
    requires NoneStep(xr, prefix, kind, step) && NoneStep(yr, prefix, kind, step)
    ensures xs == ys && xr == yr
  {
    var s, t := xs + xr, ys + yr;
    assert forall i :: |xs| <= i < |s| ==> s[i] == xr[i - |xs|];
    assert forall i :: |ys| <= i < |t| ==> t[i] == yr[i - |ys|];
    var a := if |ys| < |s| then Step(s[|ys|].path, prefix, kind) else step;
    var b := if |xs| < |t| then Step(t[|xs|].path, prefix, kind) else step;
    assert |xs| == |ys|;
    assert xs == s[..|xs|] && ys == t[..|ys|];
    assert xr == s[|xs|..] && yr == t[|ys|..];
  }

  lemma {:induction false} FlatInjective(v: Json, w: Json, prefix: string)
    requires Trimmed(v) && Trimmed(w) && WellFormed(v) && WellFormed(w)
    requires Flat(v, prefix) == Flat(w, prefix)
    ensures v == w
    decreases v, 1
  {
    FlatContinues(v, prefix);
    FlatContinues(w, prefix);
    assert Continues(v, Flat(v, prefix)[0].path, prefix);
    assert Continues(w, Flat(w, prefix)[0].path, prefix);
    match v
    case Obj(fields) => FlatFieldsInjective(fields, w.fields, prefix);
    case Arr(items) => FlatItemsInjective(items, w.items, 0, prefix);
    case _ =>
  }

  lemma {:induction false} FlatFieldsInjective(fs: seq<Field>, gs: seq<Field>, prefix: string)
    requires forall i :: 0 <= i < |fs| ==>
      CleanKey(fs[i].key) && Trimmed(fs[i].value) && WellFormed(fs[i].value)
    requires forall i :: 0 <= i < |gs| ==>
      CleanKey(gs[i].key) && Trimmed(gs[i].value) && WellFormed(gs[i].value)
    requires NoDuplicates(Keys(fs)) && NoDuplicates(Keys(gs))
    requires FlatFields(fs, prefix) == FlatFields(gs, prefix)
    ensures fs == gs
    decreases fs, 0
  {
    hide Flat, KeyPath, Step, CleanKey, Keys, NoDuplicates, Trimmed, WellFormed, Continues;
    FlatFieldsContinue(fs, prefix);
    FlatFieldsContinue(gs, prefix);
    if fs != [] && gs != [] {
      var k, v, w := fs[0].key, fs[0].value, gs[0].value;
      FieldBlock(v, prefix, k);
      FieldBlock(w, prefix, gs[0].key);
      assert FlatFields(fs, prefix)[0] == Flat(v, KeyPath(prefix, k))[0];
      assert FlatFields(gs, prefix)[0] == Flat(w, KeyPath(prefix, gs[0].key))[0];
      assert gs[0].key == k;
      OtherFieldSteps(fs, prefix);
      OtherFieldSteps(gs, prefix);
      SplitBlocks(
        Flat(v, KeyPath(prefix, k)), FlatFields(fs[1..], prefix),
        Flat(w, KeyPath(prefix, k)), FlatFields(gs[1..], prefix),
        prefix, Dict, k);
      FlatInjective(v, w, KeyPath(prefix, k));
      FlatFieldsInjective(fs[1..], gs[1..], prefix);
      assert fs == [fs[0]] + fs[1..] && gs == [gs[0]] + gs[1..];
    }
  }

  /** Behind the first field no path continues with its key. */
  lemma {:induction false} OtherFieldSteps(fields: seq<Field>, prefix: string)
    requires fields != [] && NoDuplicates(Keys(fields))
    requires forall i :: 0 <= i < |fields| ==> CleanKey(fields[i].key) && Trimmed(fields[i].value)
    ensures NoDuplicates(Keys(fields[1..]))
    ensures NoneStep(FlatFields(fields[1..], prefix), prefix, Dict, fields[0].key)
  {
    assert Keys(fields) == [fields[0].key] + Keys(fields[1..]);
    assert forall i :: 0 <= i < |Keys(fields[1..])| ==> Keys(fields[1..])[i] == Keys(fields)[i + 1];
    FlatFieldsContinue(fields[1..], prefix);
  }

  lemma {:induction false} FlatItemsInjective(xs: seq<Json>, ys: seq<Json>, index: nat, prefix: string)
    requires TrimmedItems(xs) && forall i :: 0 <= i < |xs| ==> WellFormed(xs[i])
    requires TrimmedItems(ys) && forall i :: 0 <= i < |ys| ==> WellFormed(ys[i])
    requires FlatItems(xs, index, prefix) == FlatItems(ys, index, prefix)
    ensures xs == ys
    decreases xs, 0
  {
    FlatItemsContinue(xs, index, prefix);
    FlatItemsContinue(ys, index, prefix);
    if xs != [] && ys != [] {
      ItemBlock(xs[0], prefix, index);
      ItemBlock(ys[0], prefix, index);
      OtherIndexSteps(xs[1..], index, prefix);
      OtherIndexSteps(ys[1..], index, prefix);
      SplitBlocks(
        Flat(xs[0], IndexPath(prefix, index)), FlatItems(xs[1..], index + 1, prefix),
        Flat(ys[0], IndexPath(prefix, index)), FlatItems(ys[1..], index + 1, prefix),
        prefix, List, Digits(index));
      if xs[0] != Obj([]) {
        FlatInjective(xs[0], ys[0], IndexPath(prefix, index));
      }
      FlatItemsInjective(xs[1..], ys[1..], index + 1, prefix);
      assert xs == [xs[0]] + xs[1..] && ys == [ys[0]] + ys[1..];
    }
  }

  lemma {:induction false} OtherIndexSteps(items: seq<Json>, index: nat, prefix: string)
    requires TrimmedItems(items)
    ensures NoneStep(FlatItems(items, index + 1, prefix), prefix, List, Digits(index))
  {
    var r := FlatItems(items, index + 1, prefix);
    FlatItemsContinue(items, index + 1, prefix);
    forall i | 0 <= i < |r| ensures Step(r[i].path, prefix, List) != Digits(index) {
      assert StepFrom(r[i].path, prefix, index + 1);
      var j: nat :| index + 1 <= j && Step(r[i].path, prefix, List) == Digits(j);
      if Digits(j) == Digits(index) {
        DigitsInjective(j, index);
      }
    }
  }

  // ----- distinct paths -----

  ghost predicate DistinctPaths(s: seq<Leaf>) {
    forall i, j :: 0 <= i < j < |s| ==> s[i].path != s[j].path
  }

  lemma {:induction false} DistinctJoin(xs: seq<Leaf>, ys: seq<Leaf>, prefix: string, kind: Container, step: string)
    requires DistinctPaths(xs) && DistinctPaths(ys)
    requires AllStep(xs, prefix, kind, step) && NoneStep(ys, prefix, kind, step)
    ensures DistinctPaths(xs + ys)
  {
  }

  lemma {:induction false} FlatDistinct(v: Json, prefix: string)
    requires Trimmed(v) && WellFormed(v)
    ensures DistinctPaths(Flat(v, prefix))
    decreases v, 1
  {
    match v
    case Obj(fields) => FlatFieldsDistinct(fields, prefix);
    case Arr(items) => FlatItemsDistinct(items, 0, prefix);
    case _ =>
  }

  lemma {:induction false} FlatFieldsDistinct(fields: seq<Field>, prefix: string)
    requires forall i :: 0 <= i < |fields| ==>
      CleanKey(fields[i].key) && Trimmed(fields[i].value) && WellFormed(fields[i].value)
    requires NoDuplicates(Keys(fields))
    ensures DistinctPaths(FlatFields(fields, prefix))
    decreases fields, 0
  {
    if fields != [] {
      var k, v := fields[0].key, fields[0].value;
      FlatDistinct(v, KeyPath(prefix, k));
      FieldBlock(v, prefix, k);
      OtherFieldSteps(fields, prefix);
      FlatFieldsDistinct(fields[1..], prefix);
      DistinctJoin(Flat(v, KeyPath(prefix, k)), FlatFields(fields[1..], prefix),
                   prefix, Dict, k);
    }
  }

  lemma {:induction false} FlatItemsDistinct(items: seq<Json>, index: nat, prefix: string)
    requires TrimmedItems(items) && forall i :: 0 <= i < |items| ==> WellFormed(items[i])
    ensures DistinctPaths(FlatItems(items, index, prefix))
    decreases items, 0
  {
    if items != [] {
      if items[0] != Obj([]) {
        FlatDistinct(items[0], IndexPath(prefix, index));
      }
      ItemBlock(items[0], prefix, index);
      OtherIndexSteps(items[1..], index, prefix);
      FlatItemsDistinct(items[1..], index + 1, prefix);
      DistinctJoin(Flat(items[0], IndexPath(prefix, index)), FlatItems(items[1..], index + 1, prefix),
                   prefix, List, Digits(index));
    }
  }

  // ----- states -----

  lemma {:induction false} NormalKeepsShape(v: Json)
    requires WellFormed(v)
    ensures WellFormed(Normal(CodePoints, v))
    ensures Trimmed(v) ==> Trimmed(Normal(CodePoints, v))
    decreases v
  {
    match v
    case Obj(fields) =>
      forall i | 0 <= i < |fields|
        ensures WellFormed(Normal(CodePoints, fields[i].value))
        ensures Trimmed(v) ==> Trimmed(Normal(CodePoints, fields[i].value))
      {
        NormalKeepsShape(fields[i].value);
      }
      NormalFieldsKeepShape(fields, SortedKeys(CodePoints, fields), Trimmed(v));
      SortNoDuplicates(Keys(fields), Le(CodePoints));
    case Arr(items) =>
      assert Normal(CodePoints, Obj([])) == Obj([]);
      if Trimmed(v) {
        assert TrimmedItems(items);
      }
      forall i | 0 <= i < |items|
        ensures NormalItems(CodePoints, items)[i] == Normal(CodePoints, items[i])
        ensures WellFormed(Normal(CodePoints, items[i]))
        ensures Trimmed(items[i]) ==> Trimmed(Normal(CodePoints, items[i]))
      {
        NormalKeepsShape(items[i]);
        JsonDecode.NormalItemAt(CodePoints, items, i);
      }
      if Trimmed(v) {
        assert TrimmedItems(NormalItems(CodePoints, items));
      }
    case _ =>
  }

  lemma {:induction false} NormalFieldsKeepShape(fields: seq<Field>, keys: seq<string>, trimmed: bool)
    requires forall k :: k in keys ==> k in Keys(fields)
    requires forall i :: 0 <= i < |fields| ==> WellFormed(Normal(CodePoints, fields[i].value))
    requires trimmed ==> forall i :: 0 <= i < |fields| ==>
      CleanKey(fields[i].key) && Trimmed(Normal(CodePoints, fields[i].value))
    ensures var r := NormalFields(CodePoints, fields, keys);
            && |r| == |keys|
            && (forall i :: 0 <= i < |r| ==> WellFormed(r[i].value))
            && (trimmed ==> forall i :: 0 <= i < |r| ==> CleanKey(r[i].key) && Trimmed(r[i].value))
  {
    if keys != [] {
      NormalFieldsKeepShape(fields, keys[1..], trimmed);
    }
  }

  /** The leaves of a whole state. */
  ghost function StateLeaves(state: Json): (r: seq<Leaf>)
    ensures forall i :: 0 <= i < |r| ==> IsScalar(r[i].value)
  {
    Leaves(state, "")
  }

  lemma {:induction false} NormalState(state: Json)
    requires TrimmedState(state)
    ensures var n := Normal(CodePoints, state);
            && n.Obj? && WellFormed(n)
            && (n.fields == [] || Trimmed(n))
            && StateLeaves(state) == Flat(n, "")
  {
    NormalKeepsShape(state);
    LeavesOfNormal(state, "");
    assert |Keys(Normal(CodePoints, state).fields)| == |state.fields|;
  }

  /** The leaf paths of a trimmed state are pairwise distinct. */
  lemma {:induction false} TrimmedPathsDistinct(state: Json)
    requires TrimmedState(state)
    ensures DistinctPaths(StateLeaves(state))
  {
    NormalState(state);
    var n := Normal(CodePoints, state);
    if n.fields != [] {
      FlatDistinct(n, "");
    }
  }

  /** Equal states have equal leaf lists; no condition on their keys is needed. */
  lemma {:induction false} EquivalentStatesHaveEqualLeaves(s: Json, t: Json)
    requires WellFormed(s) && WellFormed(t) && Equivalent(s, t)
    ensures StateLeaves(s) == StateLeaves(t)
  {
    JsonDecode.EquivalentIffNormal(CodePoints, s, t);
    LeavesOfNormal(s, "");
    LeavesOfNormal(t, "");
  }

  /** Trimmed states have the same leaf list exactly when they are equal up to key order. */
  lemma {:induction false} LeavesDetermineTrimmed(s: Json, t: Json)
    requires TrimmedState(s) && TrimmedState(t)
    ensures StateLeaves(s) == StateLeaves(t) <==> Equivalent(s, t)
  {
    if Equivalent(s, t) {
      EquivalentStatesHaveEqualLeaves(s, t);
    }
    if StateLeaves(s) == StateLeaves(t) {
      hide Equivalent, Leaves, WellFormed;
      NormalState(s);
      NormalState(t);
      var m, n := Normal(CodePoints, s), Normal(CodePoints, t);
      if m.fields != [] {
        FlatContinues(m, "");
        if n.fields != [] {
          FlatInjective(m, n, "");
        }
      } else if n.fields != [] {
        FlatContinues(n, "");
      }
      JsonDecode.EquivalentIffNormal(CodePoints, s, t);
    }
  }

  // ----- why the conditions on keys and containers are needed -----

  lemma {:induction false} OneEntryLeaves(key: string, value: Json, prefix: string)
    ensures Leaves(Obj([Field(key, value)]), prefix) == Leaves(value, KeyPath(prefix, key))
  {
    var fields := [Field(key, value)];
    assert Keys(fields) == [key];
    assert Sort([key], Le(CodePoints)) == [key] by {
      assert [key][..0] == [];
    }
    assert KeyLeaves(fields, [key][1..], prefix) == [];
  }

  lemma {:induction false} OneItemLeaves(value: Json, prefix: string)
    ensures Leaves(Arr([value]), prefix) == Leaves(value, prefix + "[0]")
  {
    var items := [value];
    assert ItemLeaves(items[1..], 1, prefix) == [];
    assert Digits(0) == "0";
    assert IndexPath(prefix, 0) == prefix + "[0]";
    assert ItemLeaves(items, 0, prefix) == Leaves(items[0], IndexPath(prefix, 0)) + ItemLeaves(items[1..], 1, prefix);
  }

  lemma {:induction false} OtherKeyNotEquivalent(j: string, v: Json, k: string, w: Json)
    requires j != k
    ensures !Equivalent(Obj([Field(j, v)]), Obj([Field(k, w)]))
  {
    assert Keys([Field(j, v)]) == [j] && Keys([Field(k, w)]) == [k];
    assert j in Keys([Field(j, v)]) && j !in Keys([Field(k, w)]);
  }

  /** A key with a dot aliases a nested dictionary. */
  lemma {:induction false} DottedKeyAliases(a: string, b: string, v: Json)
    requires a != ""
    ensures StateLeaves(Obj([Field(a + "." + b, v)])) == StateLeaves(Obj([Field(a, Obj([Field(b, v)]))]))
    ensures !Equivalent(Obj([Field(a + "." + b, v)]), Obj([Field(a, Obj([Field(b, v)]))]))
  {
    OneEntryLeaves(a + "." + b, v, "");
    OneEntryLeaves(b, v, a);
    OneEntryLeaves(a, Obj([Field(b, v)]), "");
    assert |a + "." + b| > |a|;
    OtherKeyNotEquivalent(a + "." + b, v, a, Obj([Field(b, v)]));
  }

  /** A key with a bracket aliases a nested list. */
  lemma {:induction false} BracketedKeyAliases(a: string, v: Json)
    requires a != ""
    ensures StateLeaves(Obj([Field(a + "[0]", v)])) == StateLeaves(Obj([Field(a, Arr([v]))]))
    ensures !Equivalent(Obj([Field(a + "[0]", v)]), Obj([Field(a, Arr([v]))]))
  {
    OneEntryLeaves(a + "[0]", v, "");
    OneItemLeaves(v, a);
    OneEntryLeaves(a, Arr([v]), "");
    assert |a + "[0]"| > |a|;
    OtherKeyNotEquivalent(a + "[0]", v, a, Arr([v]));
  }

  /** An empty container has no leaf, so that it cannot be told from another one or from its absence. */
  lemma {:induction false} EmptyContainerAliases(k: string)
    ensures StateLeaves(Obj([Field(k, Obj([]))])) == StateLeaves(Obj([Field(k, Arr([]))])) == StateLeaves(Obj([])) == []
    ensures !Equivalent(Obj([Field(k, Obj([]))]), Obj([Field(k, Arr([]))]))
    ensures !Equivalent(Obj([Field(k, Obj([]))]), Obj([]))
  {
    var fs, gs := [Field(k, Obj([]))], [Field(k, Arr([]))];
    OneEntryLeaves(k, Obj([]), "");
    OneEntryLeaves(k, Arr([]), "");
    assert fs[0].key == gs[0].key;
    assert Keys(fs) == [k] && k !in Keys([]);
    assert k in Keys(fs);
  }
}
