/**
 * JSON values and the canonical printer. A dictionary is the sequence of its entries in insertion
 * order. The Python `canonical_json` and the JavaScript `canonicalJson` differ only in the order in
 * which they sort keys: by code points, or by UTF-16 code units.
 */
module Json {
  import opened Wrappers
  import opened Text
  import opened Sorting

  datatype Json =
    | Null
    | Bool(b: bool)
    | Num(n: int)
    | Str(s: string)
    | Arr(items: seq<Json>)
    | Obj(fields: seq<Field>)

  datatype Field = Field(key: string, value: Json)

  predicate IsScalar(v: Json) {
    !v.Arr? && !v.Obj?
  }

  function Keys(fields: seq<Field>): (ks: seq<string>)
    ensures |ks| == |fields|
    ensures forall i :: 0 <= i < |fields| ==> ks[i] == fields[i].key
  {
    if fields == [] then [] else [fields[0].key] + Keys(fields[1..])
  }

  function IndexOf(fields: seq<Field>, key: string): (i: nat)
    requires key in Keys(fields)
    ensures i < |fields| && fields[i].key == key
  {
    if fields[0].key == key then 0 else 1 + IndexOf(fields[1..], key)
  }

  lemma {:induction false} KeysCons(f: Field, rest: seq<Field>)
    ensures Keys([f] + rest) == [f.key] + Keys(rest)
    ensures forall k :: k in Keys(rest) && k != f.key ==>
              IndexOf([f] + rest, k) == 1 + IndexOf(rest, k)
  {
    assert ([f] + rest)[1..] == rest;
  }

  /** `dict.get`. */
  function Get(fields: seq<Field>, key: string): (r: Option<Json>)
    ensures r.Some? ==> Field(key, r.value) in fields
    ensures r.None? ==> forall i :: 0 <= i < |fields| ==> fields[i].key != key
  {
    if fields == [] then None
    else if fields[0].key == key then Some(fields[0].value)
    else Get(fields[1..], key)
  }

  /** What a Python dict and a JavaScript object guarantee: no key occurs twice, at any depth. */
  ghost predicate WellFormed(v: Json) {
    match v
    case Arr(items) => forall i :: 0 <= i < |items| ==> WellFormed(items[i])
    case Obj(fields) =>
      && NoDuplicates(Keys(fields))
      && forall i :: 0 <= i < |fields| ==> WellFormed(fields[i].value)
    case _ => true
  }

  /** Equality up to the order of keys at every depth; unlike Python's `==` it tells booleans from integers. */
  ghost predicate Equivalent(v: Json, w: Json) {
    match (v, w)
    case (Arr(xs), Arr(ys)) =>
      && |xs| == |ys|
      && forall i :: 0 <= i < |xs| ==> Equivalent(xs[i], ys[i])
    case (Obj(fs), Obj(gs)) =>
      && (forall k :: k in Keys(fs) <==> k in Keys(gs))
      && (forall i, j :: 0 <= i < |fs| && 0 <= j < |gs| && fs[i].key == gs[j].key ==>
                           Equivalent(fs[i].value, gs[j].value))
    case _ => v == w
  }

  // ----- key order -----

  datatype KeyOrder = CodePoints | CodeUnits

  function CharUnits(o: KeyOrder, c: char): seq<int> {
    if o.CodePoints? || c as int < 0x1_0000 then
      [c as int]
    else
      [0xD800 + (c as int - 0x1_0000) / 0x400, 0xDC00 + (c as int - 0x1_0000) % 0x400]
  }

  function Units(o: KeyOrder, s: string): seq<int> {
    if s == "" then [] else CharUnits(o, s[0]) + Units(o, s[1..])
  }

  predicate LexLe(a: seq<int>, b: seq<int>) {
    a == [] || (b != [] && (a[0] < b[0] || (a[0] == b[0] && LexLe(a[1..], b[1..]))))
  }

  function Le(o: KeyOrder): (string, string) -> bool {
    (a, b) => LexLe(Units(o, a), Units(o, b))
  }

  lemma {:induction false} UnitsInjective(o: KeyOrder, s: string, t: string)
    requires Units(o, s) == Units(o, t)
    ensures s == t
  {
    if s != "" && t != "" {
      var u, w := Units(o, s), Units(o, t);
      assert u[0] == CharUnits(o, s[0])[0] && w[0] == CharUnits(o, t[0])[0];
      assert |CharUnits(o, s[0])| == |CharUnits(o, t[0])|;
      assert CharUnits(o, s[0]) == u[..|CharUnits(o, s[0])|];
      assert CharUnits(o, t[0]) == w[..|CharUnits(o, t[0])|];
      assert s[0] == t[0];
      assert Units(o, s[1..]) == u[|CharUnits(o, s[0])|..];
      assert Units(o, t[1..]) == w[|CharUnits(o, t[0])|..];
      UnitsInjective(o, s[1..], t[1..]);
      assert s == [s[0]] + s[1..] && t == [t[0]] + t[1..];
    }
  }

  lemma {:induction false} LexTotal(a: seq<int>, b: seq<int>)
    ensures LexLe(a, b) || LexLe(b, a)
    ensures LexLe(a, b) && LexLe(b, a) ==> a == b
  {
    if a != [] && b != [] {
      LexTotal(a[1..], b[1..]);
      assert a == [a[0]] + a[1..] && b == [b[0]] + b[1..];
    }
  }

  lemma {:induction false} LexTransitive(a: seq<int>, b: seq<int>, c: seq<int>)
    requires LexLe(a, b) && LexLe(b, c)
    ensures LexLe(a, c)
  {
    if a != [] && b != [] && c != [] && a[0] == b[0] == c[0] {
      LexTransitive(a[1..], b[1..], c[1..]);
    }
  }

  lemma {:induction false} KeyOrderTotal(o: KeyOrder)
    ensures TotalPreorder(Le(o)) && AntiSymmetric(Le(o))
  {
    var le := Le(o);
    forall a, b ensures le(a, b) || le(b, a) {
      LexTotal(Units(o, a), Units(o, b));
    }
    forall a, b, c | le(a, b) && le(b, c) ensures le(a, c) {
      LexTransitive(Units(o, a), Units(o, b), Units(o, c));
    }
    forall a, b | le(a, b) && le(b, a) ensures a == b {
      LexTotal(Units(o, a), Units(o, b));
      UnitsInjective(o, a, b);
    }
  }

  /** UTF-16: one unit below U+10000, else a high and a low surrogate. */
  lemma {:induction false} Utf16Units(c: char)
    ensures var units := CharUnits(CodeUnits, c);
            if c as int < 0x1_0000 then units == [c as int]
            else
              && |units| == 2 && 0xD800 <= units[0] <= 0xDBFF && 0xDC00 <= units[1] <= 0xDFFF
              && c as int == 0x1_0000 + (units[0] - 0xD800) * 0x400 + (units[1] - 0xDC00)
  {
  }

  lemma {:induction false} LexLeIff(a: seq<int>, b: seq<int>)
    ensures LexLe(a, b) <==> a <= b || exists i :: FirstLess(a, b, i)
  {
    if a != [] && b != [] && a[0] == b[0] {
      LexLeIff(a[1..], b[1..]);
      assert a == [a[0]] + a[1..] && b == [b[0]] + b[1..];
      if i :| FirstLess(a[1..], b[1..], i) {
        assert FirstLess(a, b, i + 1);
      }
      if i :| FirstLess(a, b, i) {
        assert FirstLess(a[1..], b[1..], i - 1);
      }
    } else if a != [] && b != [] && a[0] < b[0] {
      assert FirstLess(a, b, 0);
    }
  }

  /** The sequences agree up to the i-th place, where the first is less. */
  predicate FirstLess(a: seq<int>, b: seq<int>, i: int) {
    0 <= i < |a| && i < |b| && a[..i] == b[..i] && a[i] < b[i]
  }

  lemma {:induction false} CodePointUnits(s: string)
    ensures |Units(CodePoints, s)| == |s|
    ensures forall i :: 0 <= i < |s| ==> Units(CodePoints, s)[i] == s[i] as int
  {
    if s != "" {
      CodePointUnits(s[1..]);
    }
  }

  /** The keys agree up to the i-th character, where the first has the smaller code point. */
  predicate FirstBelow(a: string, b: string, i: int) {
    0 <= i < |a| && i < |b| && a[..i] == b[..i] && a[i] < b[i]
  }

  lemma {:induction false} FirstBelowIsLess(a: string, b: string, i: int)
    ensures FirstBelow(a, b, i) <==> FirstLess(Units(CodePoints, a), Units(CodePoints, b), i)
  {
    CodePointUnits(a);
    CodePointUnits(b);
    var u, w := Units(CodePoints, a), Units(CodePoints, b);
    if 0 <= i < |a| && i < |b| {
      if u[..i] == w[..i] {
        forall k | 0 <= k < i ensures a[k] == b[k] {
          assert u[..i][k] == w[..i][k];
        }
      }
    }
  }

  /** Python sorts keys like words in a dictionary: a proper prefix first, else by the first differing character. */
  lemma {:induction false} PythonOrder(a: string, b: string)
    ensures Le(CodePoints)(a, b) <==> a <= b || exists i :: FirstBelow(a, b, i)
  {
    var u, w := Units(CodePoints, a), Units(CodePoints, b);
    CodePointUnits(a);
    CodePointUnits(b);
    LexLeIff(u, w);
    if u <= w {
      forall k | 0 <= k < |a| ensures a[k] == b[k] {
        assert u[k] == w[k];
      }
    }
    forall i ensures FirstBelow(a, b, i) <==> FirstLess(u, w, i) {
      FirstBelowIsLess(a, b, i);
    }
  }

  /** `sorted(value)` and `Object.keys(value).sort()`. */
  function SortedKeys(o: KeyOrder, fields: seq<Field>): (ks: seq<string>)
    ensures |ks| == |fields|
    ensures forall k :: k in ks <==> k in Keys(fields)
  {
    var ks := Sort(Keys(fields), Le(o));
    SameElements(ks, Keys(fields));
    ks
  }

  /** The keys are printed in ascending order, each as often as it occurs. */
  lemma {:induction false} KeysArePrintedInOrder(o: KeyOrder, fields: seq<Field>)
    ensures Sorted(SortedKeys(o, fields), Le(o))
    ensures multiset(SortedKeys(o, fields)) == multiset(Keys(fields))
    ensures NoDuplicates(Keys(fields)) ==> NoDuplicates(SortedKeys(o, fields))
  {
    KeyOrderTotal(o);
    SortSorted(Keys(fields), Le(o));
    if NoDuplicates(Keys(fields)) {
      SortNoDuplicates(Keys(fields), Le(o));
    }
  }

  /** Sorting forgets the insertion order of unique keys. */
  lemma {:induction false} SortedKeysForgetOrder(o: KeyOrder, fs: seq<Field>, gs: seq<Field>)
    requires NoDuplicates(Keys(fs)) && NoDuplicates(Keys(gs))
    requires forall k :: k in Keys(fs) <==> k in Keys(gs)
    ensures SortedKeys(o, fs) == SortedKeys(o, gs)
  {
    KeyOrderTotal(o);
    SortSorted(Keys(fs), Le(o));
    SortSorted(Keys(gs), Le(o));
    SortNoDuplicates(Keys(fs), Le(o));
    SortNoDuplicates(Keys(gs), Le(o));
    SortedUnique(SortedKeys(o, fs), SortedKeys(o, gs), Le(o));
  }

  // ----- the canonical printer -----

  function HexDigit(d: nat): char
    requires d < 16
  {
    if d < 10 then (48 + d) as char else (87 + d) as char
  }

  /** The escapes of section 7 of RFC 8259 that both printers use; other characters stand for themselves. */
  function EscapeChar(c: char): (e: string)
    ensures e != "" && e[0] != '\"'
  {
    if c == '\"' then "\\\""
    else if c == '\\' then "\\\\"
    else if c as int == 8 then "\\b"
    else if c as int == 9 then "\\t"
    else if c as int == 10 then "\\n"
    else if c as int == 12 then "\\f"
    else if c as int == 13 then "\\r"
    else if c as int < 0x20 then "\\u00" + [HexDigit(c as int / 16), HexDigit(c as int % 16)]
    else [c]
  }

  function Escape(s: string): string {
    if s == "" then "" else EscapeChar(s[0]) + Escape(s[1..])
  }

  function Quote(s: string): string {
    "\"" + Escape(s) + "\""
  }

  function Canonical(o: KeyOrder, v: Json): (t: string)
    decreases v, 0
  {
    match v
    case Null => "null"
    case Bool(b) => if b then "true" else "false"
    case Num(n) => Decimal(n)
    case Str(s) => Quote(s)
    case Arr(items) => "[" + CanonicalItems(o, items) + "]"
    case Obj(fields) => "{" + CanonicalMembers(o, fields, SortedKeys(o, fields)) + "}"
  }

  function CanonicalItems(o: KeyOrder, items: seq<Json>): string
    decreases items, 0
  {
    if items == [] then ""
    else if |items| == 1 then Canonical(o, items[0])
    else Canonical(o, items[0]) + "," + CanonicalItems(o, items[1..])
  }

  function CanonicalMembers(o: KeyOrder, fields: seq<Field>, keys: seq<string>): string
    requires forall k :: k in keys ==> k in Keys(fields)
    decreases fields, |keys|
  {
    if keys == [] then "" else
      var member := Quote(keys[0]) + ":" + Canonical(o, fields[IndexOf(fields, keys[0])].value);
      if |keys| == 1 then member else member + "," + CanonicalMembers(o, fields, keys[1..])
  }

  /** The words and brackets of canonical texts. */
  lemma {:induction false} CanonicalWords(o: KeyOrder)
    ensures Canonical(o, Null) == "null" && Canonical(o, Bool(true)) == "true" && Canonical(o, Bool(false)) == "false"
    ensures Canonical(o, Arr([])) == "[]" && Canonical(o, Obj([])) == "{}"
  {
    assert "[" + "" + "]" == "[]" && "{" + "" + "}" == "{}";
    assert SortedKeys(o, []) == [];
  }

  /** Items are separated by commas, and a key from its value by a colon, with nothing else between. */
  lemma {:induction false} CanonicalSeparators(o: KeyOrder, k: string, v: Json, w: Json)
    ensures Canonical(o, Arr([v, w])) == "[" + (Canonical(o, v) + "," + Canonical(o, w)) + "]"
    ensures Canonical(o, Obj([Field(k, v)])) == "{" + (Canonical(o, Str(k)) + ":" + Canonical(o, v)) + "}"
  {
    TwoItems(o, v, w);
    OneMember(o, k, v);
  }

  lemma {:induction false} TwoItems(o: KeyOrder, v: Json, w: Json)
    ensures CanonicalItems(o, [v, w]) == Canonical(o, v) + "," + Canonical(o, w)
  {
    assert [v, w][1..] == [w];
  }

  lemma {:induction false} OneMember(o: KeyOrder, k: string, v: Json)
    ensures SortedKeys(o, [Field(k, v)]) == [k] && k in Keys([Field(k, v)])
    ensures CanonicalMembers(o, [Field(k, v)], [k]) == Quote(k) + ":" + Canonical(o, v)
  {
    hide Quote, Units, LexLe;
    var fields := [Field(k, v)];
    assert Keys(fields) == [k];
    assert Sort([k], Le(o)) == [k] by {
      assert [k][..0] == [];
    }
  }

  // ----- normal form: keys sorted at every depth -----

  function Normal(o: KeyOrder, v: Json): (r: Json)
    ensures IsScalar(v) ==> r == v
    decreases v, 0
  {
    match v
    case Arr(items) => Arr(NormalItems(o, items))
    case Obj(fields) => Obj(NormalFields(o, fields, SortedKeys(o, fields)))
    case _ => v
  }

  function NormalItems(o: KeyOrder, items: seq<Json>): (r: seq<Json>)
    ensures |r| == |items|
    decreases items, 0
  {
    if items == [] then [] else [Normal(o, items[0])] + NormalItems(o, items[1..])
  }

  function NormalFields(o: KeyOrder, fields: seq<Field>, keys: seq<string>): (r: seq<Field>)
    requires forall k :: k in keys ==> k in Keys(fields)
    ensures Keys(r) == keys
    decreases fields, |keys|
  {
    if keys == [] then [] else
      [Field(keys[0], Normal(o, fields[IndexOf(fields, keys[0])].value))] + NormalFields(o, fields, keys[1..])
  }
}
