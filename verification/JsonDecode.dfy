/**
 * The canonical text can be read back: a parser recovers every value from its canonical text, up to
 * the order of keys, so two values print alike exactly when they are equal up to that order.
 */
module JsonDecode {
  import opened Wrappers
  import opened Text
  import opened Sorting
  import opened Json

  // ----- a printer that keeps the order of keys -----

  function Plain(v: Json): (t: string)
    ensures t != "" && t[0] != ']' && t[0] != '}'
    decreases v, 0
  {
    match v
    case Null => "null"
    case Bool(b) => if b then "true" else "false"
    case Num(n) => Decimal(n)
    case Str(s) => Quote(s)
    case Arr(items) => "[" + PlainItems(items) + "]"
    case Obj(fields) => "{" + PlainMembers(fields) + "}"
  }

  function PlainItems(items: seq<Json>): string
    decreases items, 0
  {
    if items == [] then ""
    else if |items| == 1 then Plain(items[0])
    else Plain(items[0]) + "," + PlainItems(items[1..])
  }

  function PlainMembers(fields: seq<Field>): string
    decreases fields, 0
  {
    if fields == [] then "" else
      var member := Quote(fields[0].key) + ":" + Plain(fields[0].value);
      if |fields| == 1 then member else member + "," + PlainMembers(fields[1..])
  }

  /** Sorting while printing is the same as sorting first. */
  lemma {:induction false} CanonicalIsPlain(o: KeyOrder, v: Json)
    ensures Canonical(o, v) == Plain(Normal(o, v))
    decreases v, 0
  {
    match v
    case Arr(items) => CanonicalItemsArePlain(o, items);
    case Obj(fields) => CanonicalMembersArePlain(o, fields, SortedKeys(o, fields));
    case _ =>
  }

  lemma {:induction false} CanonicalItemsArePlain(o: KeyOrder, items: seq<Json>)
    ensures CanonicalItems(o, items) == PlainItems(NormalItems(o, items))
    decreases items, 0
  {
    if items != [] {
      CanonicalIsPlain(o, items[0]);
      CanonicalItemsArePlain(o, items[1..]);
      assert NormalItems(o, items)[1..] == NormalItems(o, items[1..]);
    }
  }

  lemma {:induction false} CanonicalMembersArePlain(o: KeyOrder, fields: seq<Field>, keys: seq<string>)
    requires forall k :: k in keys ==> k in Keys(fields)
    ensures CanonicalMembers(o, fields, keys) == PlainMembers(NormalFields(o, fields, keys))
    decreases fields, |keys|
  {
    if keys != [] {
      var r := NormalFields(o, fields, keys);
      CanonicalIsPlain(o, fields[IndexOf(fields, keys[0])].value);
      CanonicalMembersArePlain(o, fields, keys[1..]);
      assert r[1..] == NormalFields(o, fields, keys[1..]);
      assert |r| == |Keys(r)|;
    }
  }

  // ----- the parser -----

  function HexValue(c: char): (r: Option<nat>)
    ensures r.Some? ==> r.value < 16
  {
    if '0' <= c <= '9' then Some(c as int - 48)
    else if 'a' <= c <= 'f' then Some(c as int - 87)
    else None
  }

  /** Reads one escape behind its backslash: the character and what follows. */
  function ParseEscape(t: string): (r: Option<(char, string)>)
    ensures r.Some? ==> |r.value.1| < |t|
  {
    if t == "" then None
    else if t[0] == '\"' || t[0] == '\\' || t[0] == '/' then Some((t[0], t[1..]))
    else if t[0] == 'b' then Some((8 as char, t[1..]))
    else if t[0] == 't' then Some((9 as char, t[1..]))
    else if t[0] == 'n' then Some((10 as char, t[1..]))
    else if t[0] == 'f' then Some((12 as char, t[1..]))
    else if t[0] == 'r' then Some((13 as char, t[1..]))
    else if t[0] == 'u' && |t| >= 5 then
      var a :- HexValue(t[1]);
      var b :- HexValue(t[2]);
      var c :- HexValue(t[3]);
      var d :- HexValue(t[4]);
      var code := ((a * 16 + b) * 16 + c) * 16 + d;
      if 0xD800 <= code < 0xE000 then None else Some((code as char, t[5..]))
    else None
  }

  /** Reads a string behind its opening quote, up to the closing one. */
  function ParseString(t: string): (r: Option<(string, string)>)
    ensures r.Some? ==> |r.value.1| < |t|
    decreases |t|
  {
    if t == "" then None
    else if t[0] == '\"' then Some(("", t[1..]))
    else if t[0] == '\\' then
      var (c, rest) :- ParseEscape(t[1..]);
      var (s, rest') :- ParseString(rest);
      Some(([c] + s, rest'))
    else
      var (s, rest) :- ParseString(t[1..]);
      Some(([t[0]] + s, rest))
  }

  function ParseNumber(t: string): (r: Option<(Json, string)>)
    ensures r.Some? ==> |r.value.1| < |t|
  {
    if t != "" && t[0] == '-' then
      var n := DigitRun(t[1..]);
      if n == 0 then None else Some((Num(0 - Value(t[1..][..n])), t[1..][n..]))
    else
      var n := DigitRun(t);
      if n == 0 then None else Some((Num(Value(t[..n])), t[n..]))
  }

  /** Reads one value from the front of a text: the value and what follows. */
  function Parse(t: string): (r: Option<(Json, string)>)
    ensures r.Some? ==> |r.value.1| < |t|
    decreases |t|, 0
  {
    if t == "" then None
    else if t[0] == 'n' then if "null" <= t then Some((Null, t[4..])) else None
    else if t[0] == 't' then if "true" <= t then Some((Bool(true), t[4..])) else None
    else if t[0] == 'f' then if "false" <= t then Some((Bool(false), t[5..])) else None
    else if t[0] == '\"' then
      var (s, rest) :- ParseString(t[1..]);
      Some((Str(s), rest))
    else if t[0] == '[' then
      if |t| > 1 && t[1] == ']' then Some((Arr([]), t[2..])) else
        var (items, rest) :- ParseItems(t[1..]);
        Some((Arr(items), rest))
    else if t[0] == '{' then
      if |t| > 1 && t[1] == '}' then Some((Obj([]), t[2..])) else
        var (fields, rest) :- ParseMembers(t[1..]);
        Some((Obj(fields), rest))
    else ParseNumber(t)
  }

  /** Reads comma-separated values and the closing bracket. */
  function ParseItems(t: string): (r: Option<(seq<Json>, string)>)
    ensures r.Some? ==> |r.value.1| < |t|
    decreases |t|, 1
  {
    var (v, rest) :- Parse(t);
    if rest != "" && rest[0] == ']' then Some(([v], rest[1..]))
    else if rest != "" && rest[0] == ',' then
      var (vs, rest') :- ParseItems(rest[1..]);
      Some(([v] + vs, rest'))
    else None
  }

  /** Reads comma-separated members and the closing brace. */
  function ParseMembers(t: string): (r: Option<(seq<Field>, string)>)
    ensures r.Some? ==> |r.value.1| < |t|
    decreases |t|, 1
  {
    if t == "" || t[0] != '\"' then None else
      var (k, rest) :- ParseString(t[1..]);
      if rest == "" || rest[0] != ':' then None else
        var (v, rest') :- Parse(rest[1..]);
        if rest' != "" && rest'[0] == '}' then Some(([Field(k, v)], rest'[1..]))
        else if rest' != "" && rest'[0] == ',' then
          var (fs, rest'') :- ParseMembers(rest'[1..]);
          Some(([Field(k, v)] + fs, rest''))
        else None
  }

  /** Reads a whole text as one value. */
  function Decode(t: string): Option<Json> {
    var (v, rest) :- Parse(t);
    if rest == "" then Some(v) else None
  }

  // ----- the parser inverts the printer -----

  lemma {:induction false} ParseEscapeInverts(c: char, rest: string)
    ensures var e := EscapeChar(c);
            if e[0] == '\\' then ParseEscape((e + rest)[1..]) == Some((c, rest)) else e == [c]
  {
    var e := EscapeChar(c);
    if e[0] == '\\' {
      assert (e + rest)[|e|..] == rest;
      assert (e + rest)[1..] == e[1..] + rest;
      if |e| == 2 {
        assert (e + rest)[1..][1..] == rest;
      } else {
        assert (e + rest)[1..][5..] == rest;
        assert e[1..] == "u00" + [HexDigit(c as int / 16), HexDigit(c as int % 16)];
      }
    }
  }

  /** The characters that section 7 of RFC 8259 gives an escape of two characters, without the optional solidus. */
  const NAMED_ESCAPES: map<char, char> :=
    map['\"' := '\"', '\\' := '\\', 8 as char := 'b', 9 as char := 't', 10 as char := 'n', 12 as char := 'f', 13 as char := 'r']

  /**
   * A character is printed as it is exactly if RFC 8259 allows that; otherwise by its two-character escape if it has
   * one, and else by four lower-case hexadecimal digits.
   */
  lemma {:induction false} EscapeForm(c: char)
    ensures var e := EscapeChar(c);
            && (e == [c] <==> c as int >= 0x20 && c != '\"' && c != '\\')
            && (c in NAMED_ESCAPES ==> e == ['\\', NAMED_ESCAPES[c]])
            && (c as int < 0x20 && c !in NAMED_ESCAPES ==>
                && |e| == 6 && e[..4] == "\\u00"
                && HexValue(e[4]).Some? && HexValue(e[5]).Some?
                && HexValue(e[4]).value * 16 + HexValue(e[5]).value == c as int)
  {
  }

  lemma {:induction false} ParseOneInverts(c: char, tail: string)
    requires ParseString(tail).Some?
    ensures var (s, rest) := ParseString(tail).value;
            ParseString(EscapeChar(c) + tail) == Some(([c] + s, rest))
  {
    hide EscapeChar, ParseEscape;
    var e := EscapeChar(c);
    ParseEscapeInverts(c, tail);
    if e[0] != '\\' {
      assert (e + tail)[1..] == tail;
    }
  }

  lemma {:induction false} ParseStringInverts(s: string, rest: string)
    ensures ParseString(Escape(s) + "\"" + rest) == Some((s, rest))
  {
    hide EscapeChar, ParseEscape;
    if s == "" {
      assert Escape(s) + "\"" + rest == "\"" + rest;
      assert ("\"" + rest)[1..] == rest;
    } else {
      var tail := Escape(s[1..]) + "\"" + rest;
      assert Escape(s) + "\"" + rest == EscapeChar(s[0]) + tail;
      hide ParseString, Escape;
      ParseStringInverts(s[1..], rest);
      ParseOneInverts(s[0], tail);
      assert s == [s[0]] + s[1..];
    }
  }

  lemma {:induction false} ParseNumberInverts(n: int, rest: string)
    requires rest == "" || !IsDigit(rest[0])
    ensures ParseNumber(Decimal(n) + rest) == Some((Num(n), rest))
  {
    hide Digits, Value, DigitRun;
    var d := Digits(if n < 0 then -n else n);
    DigitRunStops(d, rest);
    DigitsValue(if n < 0 then -n else n);
    assert (d + rest)[..|d|] == d && (d + rest)[|d|..] == rest;
    if n < 0 {
      assert (Decimal(n) + rest)[1..] == d + rest;
    }
  }

  lemma {:induction false} ParseWord(v: Json, rest: string)
    requires v.Null? || v.Bool?
    ensures Parse(Plain(v) + rest) == Some((v, rest))
  {
    var t := Plain(v);
    assert t <= t + rest && (t + rest)[|t|..] == rest;
  }

  lemma {:induction false} ParseQuoted(s: string, rest: string)
    ensures Parse(Quote(s) + rest) == Some((Str(s), rest))
  {
    assert (Quote(s) + rest)[1..] == Escape(s) + "\"" + rest;
    ParseStringInverts(s, rest);
  }

  lemma {:induction false} ParseArray(t: string, items: seq<Json>, rest: string)
    requires t != "" && t[0] != ']' && ParseItems(t) == Some((items, rest))
    ensures Parse("[" + t) == Some((Arr(items), rest))
  {
    assert ("[" + t)[1..] == t;
  }

  lemma {:induction false} ParseObject(t: string, fields: seq<Field>, rest: string)
    requires t != "" && t[0] != '}' && ParseMembers(t) == Some((fields, rest))
    ensures Parse("{" + t) == Some((Obj(fields), rest))
  {
    assert ("{" + t)[1..] == t;
  }

  lemma {:induction false} ParseEmpty(rest: string)
    ensures Parse("[]" + rest) == Some((Arr([]), rest))
    ensures Parse("{}" + rest) == Some((Obj([]), rest))
  {
    assert ("[]" + rest)[2..] == rest && ("{}" + rest)[2..] == rest;
  }

  lemma {:induction false} ParseLastItem(p: string, v: Json, rest: string)
    requires Parse(p + ("]" + rest)) == Some((v, "]" + rest))
    ensures ParseItems(p + "]" + rest) == Some(([v], rest))
  {
    assert p + "]" + rest == p + ("]" + rest);
    assert ("]" + rest)[1..] == rest;
  }

  lemma {:induction false} ParseNextItem(t: string, v: Json, tail: string, vs: seq<Json>, rest: string)
    requires Parse(t) == Some((v, "," + tail))
    requires ParseItems(tail) == Some((vs, rest))
    ensures ParseItems(t) == Some(([v] + vs, rest))
  {
    assert ("," + tail)[1..] == tail;
  }

  lemma {:induction false} ParseMemberStart(k: string, t: string)
    ensures ParseString((Quote(k) + ":" + t)[1..]) == Some((k, ":" + t))
    ensures (":" + t)[1..] == t
  {
    hide Escape, ParseString;
    ParseStringInverts(k, ":" + t);
    assert (Quote(k) + ":" + t)[1..] == Escape(k) + "\"" + (":" + t);
  }

  lemma {:induction false} ParseLastMember(k: string, t: string, v: Json, rest: string)
    requires Parse(t) == Some((v, "}" + rest))
    ensures ParseMembers(Quote(k) + ":" + t) == Some(([Field(k, v)], rest))
  {
    ParseMemberStart(k, t);
    assert ("}" + rest)[1..] == rest;
  }

  lemma {:induction false} ParseNextMember(k: string, t: string, v: Json, tail: string, fs: seq<Field>, rest: string)
    requires Parse(t) == Some((v, "," + tail))
    requires ParseMembers(tail) == Some((fs, rest))
    ensures ParseMembers(Quote(k) + ":" + t) == Some(([Field(k, v)] + fs, rest))
  {
    ParseMemberStart(k, t);
    assert ("," + tail)[1..] == tail;
  }

  /** Whatever follows a printed value, the parser reads that value and stops there. */
  lemma {:induction false} ParseInverts(v: Json, rest: string)
    requires rest == "" || !IsDigit(rest[0])
    ensures Parse(Plain(v) + rest) == Some((v, rest))
    decreases v, 2
  {
    match v
    case Null => ParseWord(v, rest);
    case Bool(_) => ParseWord(v, rest);
    case Num(n) => ParseNumberInverts(n, rest);
    case Str(s) => ParseQuoted(s, rest);
    case Arr(items) => ParseArrayInverts(items, rest);
    case Obj(fields) => ParseObjectInverts(fields, rest);
  }

  lemma {:induction false} ParseArrayInverts(items: seq<Json>, rest: string)
    ensures Parse("[" + PlainItems(items) + "]" + rest) == Some((Arr(items), rest))
    decreases items, 2
  {
    hide Plain, Parse, ParseItems;
    var t := PlainItems(items) + "]" + rest;
    if items == [] {
      ParseEmpty(rest);
      assert "[" + PlainItems(items) + "]" == "[]";
    } else {
      ParseItemsInverts(items, rest);
      ParseArray(t, items, rest);
      assert "[" + PlainItems(items) + "]" + rest == "[" + t;
    }
  }

  lemma {:induction false} ParseObjectInverts(fields: seq<Field>, rest: string)
    ensures Parse("{" + PlainMembers(fields) + "}" + rest) == Some((Obj(fields), rest))
    decreases fields, 2
  {
    hide Plain, Parse, ParseMembers;
    var t := PlainMembers(fields) + "}" + rest;
    if fields == [] {
      ParseEmpty(rest);
      assert "{" + PlainMembers(fields) + "}" == "{}";
    } else {
      ParseMembersInverts(fields, rest);
      MembersText(fields, rest);
      ParseObject(t, fields, rest);
      assert "{" + PlainMembers(fields) + "}" + rest == "{" + t;
    }
  }

  lemma {:induction false} ParseItemsInverts(items: seq<Json>, rest: string)
    requires items != []
    ensures PlainItems(items) != "" && PlainItems(items)[0] != ']'
    ensures ParseItems(PlainItems(items) + "]" + rest) == Some((items, rest))
    decreases items, 1
  {
    hide Plain, Parse;
    var p := Plain(items[0]);
    if |items| == 1 {
      ParseInverts(items[0], "]" + rest);
      ParseLastItem(p, items[0], rest);
      assert items == [items[0]];
    } else {
      var tail := PlainItems(items[1..]) + "]" + rest;
      ParseInverts(items[0], "," + tail);
      ParseItemsInverts(items[1..], rest);
      ParseNextItem(p + ("," + tail), items[0], tail, items[1..], rest);
      assert PlainItems(items) + "]" + rest == p + ("," + tail);
      assert items == [items[0]] + items[1..];
    }
  }

  /** The printed members of an object, with the first one split off. */
  lemma {:induction false} MembersText(fields: seq<Field>, rest: string)
    requires fields != []
    ensures PlainMembers(fields) != "" && PlainMembers(fields)[0] == '\"'
    ensures PlainMembers(fields) + "}" + rest ==
            Quote(fields[0].key) + ":" + (Plain(fields[0].value) + MembersTail(fields[1..], rest))
  {
    Regroup(Quote(fields[0].key), Plain(fields[0].value), PlainMembers(fields[1..]), rest);
  }

  lemma {:induction false} Regroup(k: string, p: string, ps: string, rest: string)
    ensures k + ":" + p + "}" + rest == k + ":" + (p + ("}" + rest))
    ensures k + ":" + p + "," + ps + "}" + rest == k + ":" + (p + ("," + (ps + "}" + rest)))
  {
  }

  function MembersTail(others: seq<Field>, rest: string): string {
    if others == [] then "}" + rest else "," + (PlainMembers(others) + "}" + rest)
  }

  lemma {:induction false} ParseMembersInverts(fields: seq<Field>, rest: string)
    requires fields != []
    ensures ParseMembers(PlainMembers(fields) + "}" + rest) == Some((fields, rest))
    decreases fields, 1
  {
    hide Plain, PlainMembers, Quote, Parse, ParseMembers;
    var k, v := fields[0].key, fields[0].value;
    MembersText(fields, rest);
    ParseInverts(v, MembersTail(fields[1..], rest));
    if |fields| == 1 {
      ParseLastMember(k, Plain(v) + MembersTail([], rest), v, rest);
      assert fields == [Field(k, v)];
    } else {
      var tail := PlainMembers(fields[1..]) + "}" + rest;
      ParseMembersInverts(fields[1..], rest);
      ParseNextMember(k, Plain(v) + ("," + tail), v, tail, fields[1..], rest);
      assert fields == [Field(k, v)] + fields[1..];
    }
  }

  /** The parser recovers every value from its canonical text, with the keys sorted. */
  lemma {:induction false} DecodeInvertsCanonical(o: KeyOrder, v: Json)
    ensures Decode(Canonical(o, v)) == Some(Normal(o, v))
  {
    CanonicalIsPlain(o, v);
    ParseInverts(Normal(o, v), "");
    assert Plain(Normal(o, v)) + "" == Plain(Normal(o, v));
  }

  // ----- normal forms represent equality up to key order -----

  lemma {:induction false} NormalFieldAt(o: KeyOrder, fields: seq<Field>, keys: seq<string>, i: nat)
    requires forall k :: k in keys ==> k in Keys(fields)
    requires i < |keys|
    ensures |NormalFields(o, fields, keys)| == |keys|
    ensures NormalFields(o, fields, keys)[i] ==
            Field(keys[i], Normal(o, fields[IndexOf(fields, keys[i])].value))
    decreases i
  {
    assert |Keys(NormalFields(o, fields, keys))| == |keys|;
    if i > 0 {
      NormalFieldAt(o, fields, keys[1..], i - 1);
    }
  }

  lemma {:induction false} NormalItemAt(o: KeyOrder, items: seq<Json>, i: nat)
    requires i < |items|
    ensures NormalItems(o, items)[i] == Normal(o, items[i])
    decreases i
  {
    if i > 0 {
      NormalItemAt(o, items[1..], i - 1);
    }
  }

  lemma {:induction false} KeyAt(fields: seq<Field>, i: nat)
    requires NoDuplicates(Keys(fields)) && i < |fields|
    ensures fields[i].key in Keys(fields)
    ensures IndexOf(fields, fields[i].key) == i
  {
    assert Keys(fields)[i] == fields[i].key;
    var j := IndexOf(fields, fields[i].key);
    assert Keys(fields)[j] == Keys(fields)[i];
  }

  ghost predicate SameKeys(fs: seq<Field>, gs: seq<Field>) {
    forall k :: k in Keys(fs) <==> k in Keys(gs)
  }

  ghost predicate SameNormals(o: KeyOrder, fs: seq<Field>, gs: seq<Field>) {
    forall i, j :: 0 <= i < |fs| && 0 <= j < |gs| && fs[i].key == gs[j].key ==>
                     Normal(o, fs[i].value) == Normal(o, gs[j].value)
  }

  /** A value is equivalent to a second one exactly when both have the same normal form. */
  lemma {:induction false} EquivalentIffNormal(o: KeyOrder, v: Json, w: Json)
    requires WellFormed(v) && WellFormed(w)
    ensures Equivalent(v, w) <==> Normal(o, v) == Normal(o, w)
    decreases v, 0
  {
    match (v, w)
    case (Arr(xs), Arr(ys)) => EquivalentItemsIffNormal(o, xs, ys);
    case (Obj(fs), Obj(gs)) =>
      EquivalentFieldsIffNormal(o, fs, gs);
      SortedFieldsAgree(o, fs, gs);
    case _ =>
  }

  lemma {:induction false} EquivalentItemsIffNormal(o: KeyOrder, xs: seq<Json>, ys: seq<Json>)
    requires WellFormed(Arr(xs)) && WellFormed(Arr(ys))
    ensures Equivalent(Arr(xs), Arr(ys)) <==> NormalItems(o, xs) == NormalItems(o, ys)
    decreases xs, 0
  {
    if |xs| == |ys| {
      forall i | 0 <= i < |xs|
        ensures Equivalent(xs[i], ys[i]) <==> NormalItems(o, xs)[i] == NormalItems(o, ys)[i]
      {
        EquivalentIffNormal(o, xs[i], ys[i]);
        NormalItemAt(o, xs, i);
        NormalItemAt(o, ys, i);
      }
    }
  }

  lemma {:induction false} EquivalentFieldsIffNormal(o: KeyOrder, fs: seq<Field>, gs: seq<Field>)
    requires WellFormed(Obj(fs)) && WellFormed(Obj(gs))
    ensures Equivalent(Obj(fs), Obj(gs)) <==> SameKeys(fs, gs) && SameNormals(o, fs, gs)
    decreases fs, 0
  {
    forall i, j | 0 <= i < |fs| && 0 <= j < |gs| && fs[i].key == gs[j].key
      ensures Equivalent(fs[i].value, gs[j].value) <==> Normal(o, fs[i].value) == Normal(o, gs[j].value)
    {
      EquivalentIffNormal(o, fs[i].value, gs[j].value);
    }
  }

  lemma {:induction false} SortedFieldsAgree(o: KeyOrder, fs: seq<Field>, gs: seq<Field>)
    requires NoDuplicates(Keys(fs)) && NoDuplicates(Keys(gs))
    ensures SameKeys(fs, gs) && SameNormals(o, fs, gs) <==>
            NormalFields(o, fs, SortedKeys(o, fs)) == NormalFields(o, gs, SortedKeys(o, gs))
  {
    if SameKeys(fs, gs) {
      SortedKeysForgetOrder(o, fs, gs);
    }
    FieldsAgree(o, fs, gs, SortedKeys(o, fs), SortedKeys(o, gs));
  }

  /** The same for any order of visiting the keys that only depends on which keys there are. */
  lemma {:induction false} FieldsAgree(
    o: KeyOrder, fs: seq<Field>, gs: seq<Field>, ks: seq<string>, ls: seq<string>)
    requires NoDuplicates(Keys(fs)) && NoDuplicates(Keys(gs))
    requires forall k :: k in ks <==> k in Keys(fs)
    requires forall k :: k in ls <==> k in Keys(gs)
    requires SameKeys(fs, gs) ==> ks == ls
    ensures SameKeys(fs, gs) && SameNormals(o, fs, gs) <==> NormalFields(o, fs, ks) == NormalFields(o, gs, ls)
  {
    if SameKeys(fs, gs) && SameNormals(o, fs, gs) {
      SameNormalFields(o, fs, gs, ks);
    }
    if NormalFields(o, fs, ks) == NormalFields(o, gs, ls) {
      assert ks == Keys(NormalFields(o, fs, ks)) == ls;
      forall i, j | 0 <= i < |fs| && 0 <= j < |gs| && fs[i].key == gs[j].key
        ensures Normal(o, fs[i].value) == Normal(o, gs[j].value)
      {
        SameNormalValue(o, fs, gs, ks, i, j);
      }
    }
  }

  lemma {:induction false} SameNormalFields(o: KeyOrder, fs: seq<Field>, gs: seq<Field>, keys: seq<string>)
    requires forall k :: k in keys ==> k in Keys(fs) && k in Keys(gs)
    requires SameNormals(o, fs, gs)
    ensures NormalFields(o, fs, keys) == NormalFields(o, gs, keys)
  {
    if keys != [] {
      SameNormalFields(o, fs, gs, keys[1..]);
    }
  }

  lemma {:induction false} SameNormalValue(o: KeyOrder, fs: seq<Field>, gs: seq<Field>, keys: seq<string>, i: nat, j: nat)
    requires NoDuplicates(Keys(fs)) && NoDuplicates(Keys(gs))
    requires forall k :: k in keys <==> k in Keys(fs)
    requires forall k :: k in keys <==> k in Keys(gs)
    requires NormalFields(o, fs, keys) == NormalFields(o, gs, keys)
    requires i < |fs| && j < |gs| && fs[i].key == gs[j].key
    ensures Normal(o, fs[i].value) == Normal(o, gs[j].value)
  {
    KeyAt(fs, i);
    KeyAt(gs, j);
    var n :| 0 <= n < |keys| && keys[n] == fs[i].key;
    NormalFieldAt(o, fs, keys, n);
    NormalFieldAt(o, gs, keys, n);
  }

  /** Two values have the same canonical text exactly when they are equal up to key order. */
  lemma {:induction false} CanonicalIffEquivalent(o: KeyOrder, v: Json, w: Json)
    requires WellFormed(v) && WellFormed(w)
    ensures Canonical(o, v) == Canonical(o, w) <==> Equivalent(v, w)
  {
    EquivalentIffNormal(o, v, w);
    CanonicalIsPlain(o, v);
    CanonicalIsPlain(o, w);
    DecodeInvertsCanonical(o, v);
    DecodeInvertsCanonical(o, w);
  }
}
