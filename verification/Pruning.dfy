/**
 * What the leaves of a state tell about it. Without a condition on its keys, nothing: an empty key
 * gives every state an alias. With clean keys, all but the containers that have no leaf.
 */
module Pruning {
  import opened Sorting
  import opened Json
  import JsonDecode
  import opened Flatten

  // ----- clean states -----

  /** Clean keys at every depth; containers may be empty. */
  ghost predicate CleanKeys(v: Json) {
    match v
    case Arr(items) => forall i :: 0 <= i < |items| ==> CleanKeys(items[i])
    case Obj(fields) => forall i :: 0 <= i < |fields| ==> CleanKey(fields[i].key) && CleanKeys(fields[i].value)
    case _ => true
  }

  ghost predicate CleanState(v: Json) {
    v.Obj? && WellFormed(v) && CleanKeys(v)
  }

  // ----- pruning -----

  ghost predicate HasLeaf(v: Json) {
    match v
    case Arr(items) => exists i :: 0 <= i < |items| && HasLeaf(items[i])
    case Obj(fields) => exists i :: 0 <= i < |fields| && HasLeaf(fields[i].value)
    case _ => true
  }

  /**
   * A value without what has no leaf: entries and trailing items are dropped, and an item that others follow
   * gives way to an empty dictionary.
   */
  ghost function Prune(v: Json): (r: Json)
    ensures r.Obj? <==> v.Obj?
    decreases v, 0
  {
    match v
    case Obj(fields) => Obj(PruneFields(fields))
    case Arr(items) => Arr(PruneItems(items))
    case _ => v
  }

  ghost function PruneFields(fields: seq<Field>): seq<Field>
    decreases fields, 0
  {
    if fields == [] then []
    else if HasLeaf(fields[0].value) then
      [Field(fields[0].key, Prune(fields[0].value))] + PruneFields(fields[1..])
    else PruneFields(fields[1..])
  }

  ghost function PruneItems(items: seq<Json>): seq<Json>
    decreases items, 0
  {
    if items == [] then [] else
      var rest := PruneItems(items[1..]);
      if HasLeaf(items[0]) then [Prune(items[0])] + rest
      else if rest == [] then []
      else [Obj([])] + rest
  }

  // ----- pruning keeps the keys that have leaves -----

  ghost predicate KeyHasLeaf(fields: seq<Field>, key: string) {
    key in Keys(fields) && HasLeaf(fields[IndexOf(fields, key)].value)
  }

  lemma {:induction false} PrunedField(fields: seq<Field>, key: string)
    requires NoDuplicates(Keys(fields))
    ensures key in Keys(PruneFields(fields)) <==> KeyHasLeaf(fields, key)
    ensures KeyHasLeaf(fields, key) ==>
              PruneFields(fields)[IndexOf(PruneFields(fields), key)].value == Prune(fields[IndexOf(fields, key)].value)
  {
    hide NoDuplicates, HasLeaf, Prune;
    if fields != [] {
      var f, rest := fields[0], fields[1..];
      assert fields == [f] + rest;
      KeysCons(f, rest);
      DistinctCons(f.key, Keys(rest));
      PrunedField(rest, key);
      if HasLeaf(f.value) {
        KeysCons(Field(f.key, Prune(f.value)), PruneFields(rest));
      }
    }
  }

  lemma {:induction false} PrunedKeysDistinct(fields: seq<Field>)
    requires NoDuplicates(Keys(fields))
    ensures NoDuplicates(Keys(PruneFields(fields)))
  {
    hide NoDuplicates, HasLeaf, Prune;
    if fields == [] {
      assert PruneFields(fields) == fields;
    } else {
      var f, rest := fields[0], fields[1..];
      assert fields == [f] + rest;
      KeysCons(f, rest);
      DistinctCons(f.key, Keys(rest));
      PrunedKeysDistinct(rest);
      PrunedField(rest, f.key);
      if HasLeaf(f.value) {
        KeysCons(Field(f.key, Prune(f.value)), PruneFields(rest));
        DistinctCons(f.key, Keys(PruneFields(rest)));
      }
    }
  }

  /** The keys with leaves among `keys`, in their order. */
  ghost function Kept(fields: seq<Field>, keys: seq<string>): seq<string> {
    if keys == [] then []
    else if KeyHasLeaf(fields, keys[0]) then [keys[0]] + Kept(fields, keys[1..])
    else Kept(fields, keys[1..])
  }

  lemma {:induction false} KeptMembers(fields: seq<Field>, keys: seq<string>)
    ensures forall k :: k in Kept(fields, keys) <==> k in keys && KeyHasLeaf(fields, k)
  {
    hide KeyHasLeaf;
    if keys != [] {
      KeptMembers(fields, keys[1..]);
      assert keys == [keys[0]] + keys[1..];
    }
  }

  lemma {:induction false} KeptSorted(fields: seq<Field>, keys: seq<string>, le: (string, string) -> bool)
    requires Sorted(keys, le) && NoDuplicates(keys)
    ensures Sorted(Kept(fields, keys), le) && NoDuplicates(Kept(fields, keys))
  {
    hide KeyHasLeaf;
    if keys != [] {
      var first, rest := keys[0], keys[1..];
      assert keys == [first] + rest;
      assert forall i :: 0 <= i < |rest| ==> rest[i] == keys[i + 1];
      DistinctCons(first, rest);
      KeptSorted(fields, rest, le);
      KeptMembers(fields, rest);
      var kept := Kept(fields, rest);
      DistinctCons(first, kept);
      forall i | 0 <= i < |kept| ensures le(first, kept[i]) {
        assert kept[i] in rest;
      }
    }
  }

  lemma {:induction false} SortedKeysOfPruned(fields: seq<Field>)
    requires NoDuplicates(Keys(fields))
    ensures SortedKeys(CodePoints, PruneFields(fields)) == Kept(fields, SortedKeys(CodePoints, fields))
  {
    var le, pruned := Le(CodePoints), PruneFields(fields);
    var all := SortedKeys(CodePoints, fields);
    KeyOrderTotal(CodePoints);
    PrunedKeysDistinct(fields);
    KeysArePrintedInOrder(CodePoints, fields);
    KeysArePrintedInOrder(CodePoints, pruned);
    KeptSorted(fields, all, le);
    KeptMembers(fields, all);
    forall k ensures k in SortedKeys(CodePoints, pruned) <==> k in Kept(fields, all) {
      PrunedField(fields, k);
    }
    SortedUnique(SortedKeys(CodePoints, pruned), Kept(fields, all), le);
  }

  // ----- pruning keeps the leaves -----

  lemma {:induction false} LeavesOfPruned(v: Json, prefix: string)
    requires WellFormed(v)
    ensures Leaves(Prune(v), prefix) == Leaves(v, prefix)
    ensures Leaves(v, prefix) == [] <==> !HasLeaf(v)
    decreases v, 2
  {
    match v
    case Obj(fields) => DictLeavesOfPruned(fields, prefix);
    case Arr(items) => ItemLeavesOfPruned(items, 0, prefix);
    case _ =>
  }

  lemma {:induction false} DictLeavesOfPruned(fields: seq<Field>, prefix: string)
    requires WellFormed(Obj(fields))
    ensures Leaves(Obj(PruneFields(fields)), prefix) == Leaves(Obj(fields), prefix)
    ensures Leaves(Obj(fields), prefix) == [] <==> !HasLeaf(Obj(fields))
    decreases fields, |fields| + 1
  {
    hide KeyLeaves, PruneFields, SortedKeys, HasLeaf, Keys, Kept, NoDuplicates, KeyHasLeaf;
    var keys := SortedKeys(CodePoints, fields);
    SortedKeysOfPruned(fields);
    KeyLeavesOfPruned(fields, keys, prefix);
    EntryWithLeaf(fields);
    KeysWithLeaves(fields);
  }

  lemma {:induction false} KeysWithLeaves(fields: seq<Field>)
    ensures forall k :: KeyHasLeaf(fields, k) ==> k in SortedKeys(CodePoints, fields)
  {
    hide HasLeaf, Keys;
  }

  lemma {:induction false} EntryWithLeaf(fields: seq<Field>)
    requires NoDuplicates(Keys(fields))
    ensures HasLeaf(Obj(fields)) <==> exists k :: KeyHasLeaf(fields, k)
  {
    if HasLeaf(Obj(fields)) {
      var i :| 0 <= i < |fields| && HasLeaf(fields[i].value);
      JsonDecode.KeyAt(fields, i);
      assert KeyHasLeaf(fields, fields[i].key);
    }
  }

  lemma {:induction false} KeyLeavesOfPruned(fields: seq<Field>, keys: seq<string>, prefix: string)
    requires NoDuplicates(Keys(fields)) && forall i :: 0 <= i < |fields| ==> WellFormed(fields[i].value)
    requires forall k :: k in keys ==> k in Keys(fields)
    ensures forall k :: k in Kept(fields, keys) ==> k in Keys(PruneFields(fields))
    ensures KeyLeaves(PruneFields(fields), Kept(fields, keys), prefix) == KeyLeaves(fields, keys, prefix)
    ensures KeyLeaves(fields, keys, prefix) == [] <==> forall k :: k in keys ==> !KeyHasLeaf(fields, k)
    decreases fields, |keys|
  {
    hide Leaves, HasLeaf, Prune, PruneFields, Keys, IndexOf, KeyPath, WellFormed, NoDuplicates;
    KeptMembers(fields, keys);
    forall k | k in Kept(fields, keys) ensures k in Keys(PruneFields(fields)) {
      PrunedField(fields, k);
    }
    if keys != [] {
      var key, rest := keys[0], keys[1..];
      var value := fields[IndexOf(fields, key)].value;
      assert keys == [key] + rest;
      LeavesOfPruned(value, KeyPath(prefix, key));
      assert KeyHasLeaf(fields, key) <==> HasLeaf(value);
      hide KeyHasLeaf;
      assert Kept(fields, keys) == if KeyHasLeaf(fields, key) then [key] + Kept(fields, rest) else Kept(fields, rest);
      KeyLeavesOfPruned(fields, rest, prefix);
      PrunedField(fields, key);
      assert KeyLeaves(fields, keys, prefix) == Leaves(value, KeyPath(prefix, key)) + KeyLeaves(fields, rest, prefix);
      if KeyHasLeaf(fields, key) {
        assert Kept(fields, keys)[1..] == Kept(fields, rest);
      }
    }
  }

  lemma {:induction false} ItemLeavesCons(v: Json, rest: seq<Json>, index: nat, prefix: string)
    ensures ItemLeaves([v] + rest, index, prefix) ==
            Leaves(v, IndexPath(prefix, index)) + ItemLeaves(rest, index + 1, prefix)
  {
    assert ([v] + rest)[1..] == rest;
  }

  lemma {:induction false} NoItemLeaves(index: nat, prefix: string)
    ensures ItemLeaves([], index, prefix) == []
  {
  }

  lemma {:induction false} NoLeafBelow(prefix: string)
    ensures Leaves(Obj([]), prefix) == []
  {
  }

  lemma {:induction false} ItemLeavesOfPruned(items: seq<Json>, index: nat, prefix: string)
    requires forall i :: 0 <= i < |items| ==> WellFormed(items[i])
    ensures ItemLeaves(PruneItems(items), index, prefix) == ItemLeaves(items, index, prefix)
    ensures ItemLeaves(items, index, prefix) == [] <==> forall i :: 0 <= i < |items| ==> !HasLeaf(items[i])
    decreases items, 0
  {
    hide Leaves, HasLeaf, Prune, WellFormed, IndexPath, ItemLeaves;
    if items == [] {
      assert PruneItems(items) == items;
      NoItemLeaves(index, prefix);
    } else {
      var first, rest := items[0], items[1..];
      var path := IndexPath(prefix, index);
      assert items == [first] + rest;
      NoLeafBelow(path);
      LeavesOfPruned(first, path);
      ItemLeavesOfPruned(rest, index + 1, prefix);
      ItemLeavesCons(first, rest, index, prefix);
      ItemLeavesCons(Prune(first), PruneItems(rest), index, prefix);
      ItemLeavesCons(Obj([]), PruneItems(rest), index, prefix);
      assert PruneItems(items) ==
        if HasLeaf(first) then [Prune(first)] + PruneItems(rest)
        else if PruneItems(rest) == [] then [] else [Obj([])] + PruneItems(rest);
      if !HasLeaf(first) {
        assert [] + ItemLeaves(rest, index + 1, prefix) == ItemLeaves(rest, index + 1, prefix);
        if PruneItems(rest) == [] {
          NoItemLeaves(index, prefix);
          NoItemLeaves(index + 1, prefix);
        }
      }
    }
  }

  // ----- a pruned clean state is trimmed -----

  lemma {:induction false} PruneTrims(v: Json)
    requires WellFormed(v) && CleanKeys(v)
    ensures WellFormed(Prune(v))
    ensures HasLeaf(v) ==> Trimmed(Prune(v))
    ensures !HasLeaf(v) && v.Obj? ==> Prune(v) == Obj([])
    decreases v, 1
  {
    match v
    case Obj(fields) =>
      PrunedKeysDistinct(fields);
      PruneFieldsTrims(fields);
    case Arr(items) => PruneItemsTrims(items);
    case _ =>
  }

  lemma {:induction false} PruneFieldsTrims(fields: seq<Field>)
    requires forall i :: 0 <= i < |fields| ==>
      WellFormed(fields[i].value) && CleanKey(fields[i].key) && CleanKeys(fields[i].value)
    ensures var r := PruneFields(fields);
            && (r != [] <==> exists i :: 0 <= i < |fields| && HasLeaf(fields[i].value))
            && forall i :: 0 <= i < |r| ==> WellFormed(r[i].value) && CleanKey(r[i].key) && Trimmed(r[i].value)
    decreases fields, 0
  {
    hide HasLeaf, Prune, CleanKeys, CleanKey, WellFormed, Trimmed;
    if fields != [] {
      PruneTrims(fields[0].value);
      PruneFieldsTrims(fields[1..]);
      assert fields == [fields[0]] + fields[1..];
    }
  }

  lemma {:induction false} TrimmedItemsCons(v: Json, rest: seq<Json>)
    requires TrimmedItems(rest) && (v == Obj([]) || Trimmed(v))
    ensures rest != [] || Trimmed(v) ==> TrimmedItems([v] + rest)
  {
    hide Trimmed;
  }

  lemma {:induction false} EmptyDictWellFormed()
    ensures WellFormed(Obj([]))
  {
  }

  lemma {:induction false} PruneItemsTrims(items: seq<Json>)
    requires forall i :: 0 <= i < |items| ==> WellFormed(items[i]) && CleanKeys(items[i])
    ensures var r := PruneItems(items);
            && (r != [] <==> exists i :: 0 <= i < |items| && HasLeaf(items[i]))
            && TrimmedItems(r) && forall i :: 0 <= i < |r| ==> WellFormed(r[i])
    decreases items, 0
  {
    hide HasLeaf, Prune, CleanKeys, WellFormed, Trimmed;
    if items != [] {
      var first, rest := items[0], items[1..];
      assert items == [first] + rest;
      EmptyDictWellFormed();
      PruneTrims(first);
      PruneItemsTrims(rest);
      TrimmedItemsCons(if HasLeaf(first) then Prune(first) else Obj([]), PruneItems(rest));
      hide TrimmedItems;
    }
  }

  lemma {:induction false} PrunedState(s: Json)
    requires CleanState(s)
    ensures TrimmedState(Prune(s)) && StateLeaves(Prune(s)) == StateLeaves(s)
  {
    PruneTrims(s);
    LeavesOfPruned(s, "");
  }

  /** The leaf paths of a clean state are pairwise distinct. */
  lemma {:induction false} StatePathsDistinct(s: Json)
    requires CleanState(s)
    ensures DistinctPaths(StateLeaves(s))
  {
    PrunedState(s);
    TrimmedPathsDistinct(Prune(s));
  }

  /** Clean states have the same leaf list exactly when they differ in key order and in what has no leaf alone. */
  lemma {:induction false} LeavesDetermineState(s: Json, t: Json)
    requires CleanState(s) && CleanState(t)
    ensures StateLeaves(s) == StateLeaves(t) <==> Equivalent(Prune(s), Prune(t))
  {
    PrunedState(s);
    PrunedState(t);
    LeavesDetermineTrimmed(Prune(s), Prune(t));
  }

  // ----- states without empty containers -----

  ghost predicate NoEmptyContainers(v: Json) {
    match v
    case Arr(items) => items != [] && forall i :: 0 <= i < |items| ==> NoEmptyContainers(items[i])
    case Obj(fields) => fields != [] && forall i :: 0 <= i < |fields| ==> NoEmptyContainers(fields[i].value)
    case _ => true
  }

  /** A clean state without empty containers below it; the empty dictionary is one. */
  ghost predicate AddressableState(v: Json) {
    CleanState(v) && (v.fields == [] || NoEmptyContainers(v))
  }

  lemma {:induction false} NothingToPrune(v: Json)
    requires NoEmptyContainers(v)
    ensures HasLeaf(v) && Prune(v) == v
    decreases v, 1
  {
    match v
    case Obj(fields) =>
      NoFieldToPrune(fields);
      assert HasLeaf(fields[0].value);
    case Arr(items) =>
      NoItemToPrune(items);
      assert HasLeaf(items[0]);
    case _ =>
  }

  lemma {:induction false} NoFieldToPrune(fields: seq<Field>)
    requires forall i :: 0 <= i < |fields| ==> NoEmptyContainers(fields[i].value)
    ensures PruneFields(fields) == fields
    ensures forall i :: 0 <= i < |fields| ==> HasLeaf(fields[i].value)
    decreases fields, 0
  {
    if fields != [] {
      NothingToPrune(fields[0].value);
      NoFieldToPrune(fields[1..]);
      assert fields == [fields[0]] + fields[1..];
    }
  }

  lemma {:induction false} NoItemToPrune(items: seq<Json>)
    requires forall i :: 0 <= i < |items| ==> NoEmptyContainers(items[i])
    ensures PruneItems(items) == items
    ensures forall i :: 0 <= i < |items| ==> HasLeaf(items[i])
    decreases items, 0
  {
    if items != [] {
      NothingToPrune(items[0]);
      NoItemToPrune(items[1..]);
      assert items == [items[0]] + items[1..];
    }
  }

  /** Addressable states have the same leaf list exactly when they are equal up to key order. */
  lemma {:induction false} LeavesDetermineAddressable(s: Json, t: Json)
    requires AddressableState(s) && AddressableState(t)
    ensures Prune(s) == s && Prune(t) == t
    ensures StateLeaves(s) == StateLeaves(t) <==> Equivalent(s, t)
  {
    if s.fields != [] { NothingToPrune(s); }
    if t.fields != [] { NothingToPrune(t); }
    LeavesDetermineState(s, t);
  }

  // ----- without a condition on keys -----

  lemma {:induction false} NotItsOwnEntry(s: Json)
    ensures !Equivalent(s, Obj([Field("", s)]))
  {
    var t := [Field("", s)];
    assert Keys(t) == [""];
    if Equivalent(s, Obj(t)) {
      assert "" in Keys(t) && "" in Keys(s.fields);
      var inner := s.fields[0];
      assert Keys(s.fields)[0] == inner.key && inner.key in Keys(t);
      assert Equivalent(inner.value, t[0].value);
      NotItsOwnEntry(inner.value);
      assert Keys([Field("", inner.value)]) == [""];
      assert Equivalent(inner.value, Obj([Field("", inner.value)]));
    }
  }

  /** No state is determined by its leaves among all states: below an empty key every state has the leaves it had. */
  lemma {:induction false} EmptyKeyAliases(s: Json)
    requires s.Obj? && WellFormed(s)
    ensures var t := Obj([Field("", s)]);
            WellFormed(t) && StateLeaves(t) == StateLeaves(s) && !Equivalent(s, t)
  {
    var t := [Field("", s)];
    assert Keys(t) == [""];
    OneEntryLeaves("", s, "");
    NotItsOwnEntry(s);
  }
}
