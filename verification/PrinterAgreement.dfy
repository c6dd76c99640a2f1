/**
 * The Python and the JavaScript printer. They sort keys by code points and by UTF-16 code units, so they
 * print a value alike exactly when no two keys of one object are ordered oppositely. JavaScript numbers
 * carry integers up to 2^53 - 1 exactly; beyond, its digits are rounded and from 10^21 in exponent form.
 */
module PrinterAgreement {
  import opened Wrappers
  import opened Text
  import opened Sorting
  import opened Json
  import opened JsonDecode

  // ----- the JavaScript printer -----

  const MAX_SAFE_INTEGER := 0x1F_FFFF_FFFF_FFFF

  predicate IsSafe(n: int) {
    -MAX_SAFE_INTEGER <= n <= MAX_SAFE_INTEGER
  }

  /** What is known of JavaScript's rendering of numbers: safe integers are printed by their digits. */
  ghost predicate ShowsSafeIntegers(show: int -> string) {
    forall n :: IsSafe(n) ==> show(n) == Decimal(n)
  }

  /** All integers in a value are safe ones. */
  ghost predicate SafeNumbers(v: Json) {
    match v
    case Num(n) => IsSafe(n)
    case Arr(items) => forall i :: 0 <= i < |items| ==> SafeNumbers(items[i])
    case Obj(fields) => forall i :: 0 <= i < |fields| ==> SafeNumbers(fields[i].value)
    case _ => true
  }

  /** `canonicalJson`, with the engine's rendering of numbers. */
  function JsCanonical(show: int -> string, v: Json): string
    decreases v, 0
  {
    match v
    case Num(n) => show(n)
    case Arr(items) => "[" + JsItems(show, items) + "]"
    case Obj(fields) => "{" + JsMembers(show, fields, SortedKeys(CodeUnits, fields)) + "}"
    case _ => Canonical(CodeUnits, v)
  }

  function JsItems(show: int -> string, items: seq<Json>): string
    decreases items, 0
  {
    if items == [] then ""
    else if |items| == 1 then JsCanonical(show, items[0])
    else JsCanonical(show, items[0]) + "," + JsItems(show, items[1..])
  }

  function JsMembers(show: int -> string, fields: seq<Field>, keys: seq<string>): string
    requires forall k :: k in keys ==> k in Keys(fields)
    decreases fields, |keys|
  {
    if keys == [] then "" else
      var member := Quote(keys[0]) + ":" + JsCanonical(show, fields[IndexOf(fields, keys[0])].value);
      if |keys| == 1 then member else member + "," + JsMembers(show, fields, keys[1..])
  }

  lemma {:induction false} JsIsCanonical(show: int -> string, v: Json)
    requires ShowsSafeIntegers(show) && SafeNumbers(v)
    ensures JsCanonical(show, v) == Canonical(CodeUnits, v)
    decreases v, 0
  {
    match v
    case Arr(items) => JsItemsAreCanonical(show, items);
    case Obj(fields) => JsMembersAreCanonical(show, fields, SortedKeys(CodeUnits, fields));
    case _ =>
  }

  lemma {:induction false} JsItemsAreCanonical(show: int -> string, items: seq<Json>)
    requires ShowsSafeIntegers(show) && forall i :: 0 <= i < |items| ==> SafeNumbers(items[i])
    ensures JsItems(show, items) == CanonicalItems(CodeUnits, items)
    decreases items, 0
  {
    if items != [] {
      JsIsCanonical(show, items[0]);
      JsItemsAreCanonical(show, items[1..]);
    }
  }

  lemma {:induction false} JsMembersAreCanonical(show: int -> string, fields: seq<Field>, keys: seq<string>)
    requires ShowsSafeIntegers(show) && forall i :: 0 <= i < |fields| ==> SafeNumbers(fields[i].value)
    requires forall k :: k in keys ==> k in Keys(fields)
    ensures JsMembers(show, fields, keys) == CanonicalMembers(CodeUnits, fields, keys)
    decreases fields, |keys|
  {
    if keys != [] {
      JsIsCanonical(show, fields[IndexOf(fields, keys[0])].value);
      JsMembersAreCanonical(show, fields, keys[1..]);
    }
  }

  /** The parser recovers every value with safe integers from its JavaScript text, up to key order. */
  lemma {:induction false} DecodeInvertsJavaScript(show: int -> string, v: Json)
    requires ShowsSafeIntegers(show) && SafeNumbers(v)
    ensures Decode(JsCanonical(show, v)) == Some(Normal(CodeUnits, v))
  {
    JsIsCanonical(show, v);
    DecodeInvertsCanonical(CodeUnits, v);
  }

  // ----- where the two orders of keys differ -----

  /** A character that comes first as a code point and behind the other one's surrogates as a code unit. */
  predicate Reversed(c: char, d: char) {
    0xE000 <= c as int < 0x1_0000 <= d as int
  }

  /** The keys first differ in two such characters. */
  predicate Clash(a: string, b: string) {
    a != "" && b != "" &&
    if a[0] == b[0] then Clash(a[1..], b[1..]) else Reversed(a[0], b[0]) || Reversed(b[0], a[0])
  }

  lemma {:induction false} LexPrefix(p: seq<int>, x: seq<int>, y: seq<int>)
    ensures LexLe(p + x, p + y) <==> LexLe(x, y)
  {
    if p == [] {
      assert p + x == x && p + y == y;
    } else {
      assert (p + x)[1..] == p[1..] + x && (p + y)[1..] == p[1..] + y;
      LexPrefix(p[1..], x, y);
    }
  }

  /** Different first characters decide the order of code points, and of code units unless reversed. */
  lemma {:induction false} FirstCharacters(c: char, d: char, x: seq<int>, y: seq<int>)
    requires c != d
    ensures LexLe(CharUnits(CodePoints, c) + x, CharUnits(CodePoints, d) + y) <==> c < d
    ensures LexLe(CharUnits(CodeUnits, c) + x, CharUnits(CodeUnits, d) + y) <==>
            if Reversed(c, d) || Reversed(d, c) then d < c else c < d
  {
    var u, w := CharUnits(CodeUnits, c) + x, CharUnits(CodeUnits, d) + y;
    assert u[0] == CharUnits(CodeUnits, c)[0] && w[0] == CharUnits(CodeUnits, d)[0];
    if u[0] == w[0] {
      assert u[1..][0] == CharUnits(CodeUnits, c)[1] && w[1..][0] == CharUnits(CodeUnits, d)[1];
    }
  }

  /** Two keys are ordered oppositely exactly if they clash. */
  lemma {:induction false} OrdersDifferIff(a: string, b: string)
    ensures Le(CodePoints)(a, b) != Le(CodeUnits)(a, b) <==> Clash(a, b)
  {
    if a != "" && b != "" {
      hide CharUnits, LexLe;
      if a[0] == b[0] {
        LexPrefix(CharUnits(CodePoints, a[0]), Units(CodePoints, a[1..]), Units(CodePoints, b[1..]));
        LexPrefix(CharUnits(CodeUnits, a[0]), Units(CodeUnits, a[1..]), Units(CodeUnits, b[1..]));
        OrdersDifferIff(a[1..], b[1..]);
      } else {
        FirstCharacters(a[0], b[0], Units(CodePoints, a[1..]), Units(CodePoints, b[1..]));
        FirstCharacters(a[0], b[0], Units(CodeUnits, a[1..]), Units(CodeUnits, b[1..]));
      }
    }
  }

  // ----- sorting by two orders -----

  ghost predicate SameOrder<T>(s: seq<T>, x: T, le: (T, T) -> bool, le': (T, T) -> bool) {
    forall i :: 0 <= i < |s| ==> le(s[i], x) == le'(s[i], x)
  }

  lemma {:induction false} InsertAgrees<T>(s: seq<T>, x: T, le: (T, T) -> bool, le': (T, T) -> bool)
    requires SameOrder(s, x, le, le')
    ensures Insert(s, x, le) == Insert(s, x, le')
  {
    if s != [] {
      InsertAgrees(s[..|s| - 1], x, le, le');
    }
  }

  ghost predicate CompareAlike<T>(s: seq<T>, le: (T, T) -> bool, le': (T, T) -> bool) {
    forall i, j :: 0 <= i < |s| && 0 <= j < |s| ==> le(s[i], s[j]) == le'(s[i], s[j])
  }

  lemma {:induction false} LastComparesAlike<T>(s: seq<T>, r: seq<T>, le: (T, T) -> bool, le': (T, T) -> bool)
    requires s != [] && CompareAlike(s, le, le')
    requires multiset(r) == multiset(s[..|s| - 1])
    ensures SameOrder(r, s[|s| - 1], le, le')
  {
    var init := s[..|s| - 1];
    SameElements(r, init);
    forall i | 0 <= i < |r| ensures le(r[i], s[|s| - 1]) == le'(r[i], s[|s| - 1]) {
      assert r[i] in init;
      var j :| 0 <= j < |init| && init[j] == r[i];
      assert s[j] == r[i];
    }
  }

  /** Sorting depends only on how the order compares the elements that are there. */
  lemma {:induction false} SortAgrees<T>(s: seq<T>, le: (T, T) -> bool, le': (T, T) -> bool)
    requires CompareAlike(s, le, le')
    ensures Sort(s, le) == Sort(s, le')
  {
    if s != [] {
      SortAgrees(s[..|s| - 1], le, le');
      LastComparesAlike(s, Sort(s[..|s| - 1], le), le, le');
      InsertAgrees(Sort(s[..|s| - 1], le), s[|s| - 1], le, le');
    }
  }

  /** What is sorted by two orders is compared alike by them. */
  lemma {:induction false} SortedByBoth<T(!new)>(s: seq<T>, le: (T, T) -> bool, le': (T, T) -> bool)
    requires Sorted(s, le) && Sorted(s, le') && NoDuplicates(s)
    requires TotalPreorder(le) && TotalPreorder(le') && AntiSymmetric(le) && AntiSymmetric(le')
    ensures CompareAlike(s, le, le')
  {
    forall i, j | 0 <= i < |s| && 0 <= j < |s| ensures le(s[i], s[j]) == le'(s[i], s[j]) {
      if i < j {
        assert le(s[i], s[j]) && le'(s[i], s[j]);
      } else if j < i {
        assert le(s[j], s[i]) && le'(s[j], s[i]) && s[j] != s[i];
      }
    }
  }

  ghost predicate NoClash(keys: seq<string>) {
    forall i, j :: 0 <= i < |keys| && 0 <= j < |keys| ==> !Clash(keys[i], keys[j])
  }

  lemma {:induction false} NoClashComparesAlike(keys: seq<string>)
    ensures NoClash(keys) <==> CompareAlike(keys, Le(CodePoints), Le(CodeUnits))
  {
    forall i, j | 0 <= i < |keys| && 0 <= j < |keys|
      ensures Le(CodePoints)(keys[i], keys[j]) == Le(CodeUnits)(keys[i], keys[j]) <==> !Clash(keys[i], keys[j])
    {
      OrdersDifferIff(keys[i], keys[j]);
    }
  }

  /** Both printers visit the keys of an object in one order exactly when no two of them clash. */
  lemma {:induction false} SortedKeysAgreeIff(fields: seq<Field>)
    ensures NoClash(Keys(fields)) ==> SortedKeys(CodePoints, fields) == SortedKeys(CodeUnits, fields)
    ensures NoDuplicates(Keys(fields)) && SortedKeys(CodePoints, fields) == SortedKeys(CodeUnits, fields) ==>
              NoClash(Keys(fields))
  {
    var keys, le, le' := Keys(fields), Le(CodePoints), Le(CodeUnits);
    NoClashComparesAlike(keys);
    if NoClash(keys) {
      SortAgrees(keys, le, le');
    }
    var sorted := SortedKeys(CodePoints, fields);
    if NoDuplicates(keys) && sorted == SortedKeys(CodeUnits, fields) {
      KeysArePrintedInOrder(CodePoints, fields);
      KeysArePrintedInOrder(CodeUnits, fields);
      KeyOrderTotal(CodePoints);
      KeyOrderTotal(CodeUnits);
      SortedByBoth(sorted, le, le');
      NoClashComparesAlike(sorted);
      SameMembersClash(sorted, keys);
    }
  }

  lemma {:induction false} SameMembersClash(s: seq<string>, t: seq<string>)
    requires NoClash(s) && forall k :: k in s <==> k in t
    ensures NoClash(t)
  {
    forall i, j | 0 <= i < |t| && 0 <= j < |t| ensures !Clash(t[i], t[j]) {
      assert t[i] in s && t[j] in s;
    }
  }

  // ----- printing alike -----

  /** No two keys of any one object clash, at any depth. */
  ghost predicate SameOrders(v: Json) {
    match v
    case Arr(items) => forall i :: 0 <= i < |items| ==> SameOrders(items[i])
    case Obj(fields) => NoClash(Keys(fields)) && forall i :: 0 <= i < |fields| ==> SameOrders(fields[i].value)
    case _ => true
  }

  lemma {:induction false} SameOrdersSameText(v: Json)
    requires SameOrders(v)
    ensures Canonical(CodePoints, v) == Canonical(CodeUnits, v)
    decreases v, 0
  {
    match v
    case Arr(items) => ItemsAgree(items);
    case Obj(fields) =>
      SortedKeysAgreeIff(fields);
      MembersAgree(fields, SortedKeys(CodePoints, fields));
    case _ =>
  }

  lemma {:induction false} ItemsAgree(items: seq<Json>)
    requires forall i :: 0 <= i < |items| ==> SameOrders(items[i])
    ensures CanonicalItems(CodePoints, items) == CanonicalItems(CodeUnits, items)
    decreases items, 0
  {
    if items != [] {
      SameOrdersSameText(items[0]);
      ItemsAgree(items[1..]);
    }
  }

  lemma {:induction false} MembersAgree(fields: seq<Field>, keys: seq<string>)
    requires forall k :: k in keys ==> k in Keys(fields)
    requires forall i :: 0 <= i < |fields| ==> SameOrders(fields[i].value)
    ensures CanonicalMembers(CodePoints, fields, keys) == CanonicalMembers(CodeUnits, fields, keys)
    decreases fields, |keys|
  {
    if keys != [] {
      SameOrdersSameText(fields[IndexOf(fields, keys[0])].value);
      MembersAgree(fields, keys[1..]);
    }
  }

  /** Values with one normal form under both orders have no keys that clash. */
  lemma {:induction false} SameNormalSameOrders(v: Json)
    requires WellFormed(v) && Normal(CodePoints, v) == Normal(CodeUnits, v)
    ensures SameOrders(v)
    decreases v
  {
    match v
    case Arr(items) =>
      forall i | 0 <= i < |items| ensures SameOrders(items[i]) {
        NormalItemAt(CodePoints, items, i);
        NormalItemAt(CodeUnits, items, i);
        SameNormalSameOrders(items[i]);
      }
    case Obj(fields) =>
      var keys := SortedKeys(CodePoints, fields);
      assert keys == Keys(NormalFields(CodePoints, fields, keys)) == SortedKeys(CodeUnits, fields);
      SortedKeysAgreeIff(fields);
      forall i | 0 <= i < |fields| ensures SameOrders(fields[i].value) {
        SameNormalField(fields, keys, i);
        SameNormalSameOrders(fields[i].value);
      }
    case _ =>
  }

  lemma {:induction false} SameNormalField(fields: seq<Field>, keys: seq<string>, i: nat)
    requires NoDuplicates(Keys(fields)) && i < |fields|
    requires forall k :: k in keys <==> k in Keys(fields)
    requires NormalFields(CodePoints, fields, keys) == NormalFields(CodeUnits, fields, keys)
    ensures Normal(CodePoints, fields[i].value) == Normal(CodeUnits, fields[i].value)
  {
    KeyAt(fields, i);
    var n :| 0 <= n < |keys| && keys[n] == fields[i].key;
    NormalFieldAt(CodePoints, fields, keys, n);
    NormalFieldAt(CodeUnits, fields, keys, n);
  }

  /** The two printers print a value with safe integers alike exactly when no two keys of one object clash. */
  lemma {:induction false} PrintersAgreeIff(show: int -> string, v: Json)
    requires ShowsSafeIntegers(show) && SafeNumbers(v) && WellFormed(v)
    ensures JsCanonical(show, v) == Canonical(CodePoints, v) <==> SameOrders(v)
  {
    JsIsCanonical(show, v);
    if SameOrders(v) {
      SameOrdersSameText(v);
    } else if JsCanonical(show, v) == Canonical(CodePoints, v) {
      DecodeInvertsCanonical(CodePoints, v);
      DecodeInvertsCanonical(CodeUnits, v);
      SameNormalSameOrders(v);
    }
  }

  /** An object with the keys U+E000 and U+10000 is printed differently, whatever its values. */
  lemma {:induction false} PrintersDiffer(show: int -> string, v: Json, w: Json)
    requires ShowsSafeIntegers(show) && SafeNumbers(v) && SafeNumbers(w) && WellFormed(v) && WellFormed(w)
    ensures var entries := Obj([Field("\U{E000}", v), Field("\U{10000}", w)]);
            JsCanonical(show, entries) != Canonical(CodePoints, entries)
  {
    var fields := [Field("\U{E000}", v), Field("\U{10000}", w)];
    var keys := Keys(fields);
    assert keys[0] == "\U{E000}" && keys[1] == "\U{10000}";
    assert Clash(keys[0], keys[1]);
    PrintersAgreeIff(show, Obj(fields));
  }
}
