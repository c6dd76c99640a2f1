/**
 * The texts that `rmp.py` hashes: one for a leaf, one for an inner node, one for the empty tree.
 * A leaf text determines its leaf and a node text its children, whatever strings a peer supplies.
 */
module Preimages {
  import opened Wrappers
  import opened Text
  import opened Json
  import JsonDecode

  // ----- digests -----

  newtype byte = b: int | 0 <= b < 256

  /** The digest of the UTF-8 encoding of a text: SHA-256, left abstract. */
  type Hash = string -> seq<byte>

  function HexByte(b: byte): string {
    [HexDigit(b as nat / 16), HexDigit(b as nat % 16)]
  }

  function Hex(bytes: seq<byte>): (s: string)
    ensures |s| == 2 * |bytes|
  {
    if bytes == [] then "" else HexByte(bytes[0]) + Hex(bytes[1..])
  }

  /** What stands before a digest in roots and in event hashes. */
  const DIGEST_TAG := "sha256:"

  /** `_sha256`: `hashlib.sha256(...).hexdigest()`. */
  function Sha256(h: Hash, text: string): string {
    Hex(h(text))
  }

  /** Every byte is rendered as two lower-case digits, the higher one first. */
  lemma {:induction false} HexDenotes(bytes: seq<byte>, i: nat)
    requires i < |bytes|
    ensures var high, low := JsonDecode.HexValue(Hex(bytes)[2 * i]), JsonDecode.HexValue(Hex(bytes)[2 * i + 1]);
            high.Some? && low.Some? && high.value * 16 + low.value == bytes[i] as int
  {
    if i == 0 {
      assert Hex(bytes)[0] == HexByte(bytes[0])[0] && Hex(bytes)[1] == HexByte(bytes[0])[1];
    } else {
      HexDenotes(bytes[1..], i - 1);
      assert Hex(bytes)[2..] == Hex(bytes[1..]);
      assert Hex(bytes)[2 * i] == Hex(bytes[1..])[2 * (i - 1)];
      assert Hex(bytes)[2 * i + 1] == Hex(bytes[1..])[2 * (i - 1) + 1];
    }
  }

  lemma {:induction false} HexHasNoColon(bytes: seq<byte>)
    ensures ':' !in Hex(bytes)
  {
    if bytes != [] {
      HexHasNoColon(bytes[1..]);
    }
  }

  lemma {:induction false} HexInjective(a: seq<byte>, b: seq<byte>)
    requires Hex(a) == Hex(b)
    ensures a == b
  {
    if a != [] && b != [] {
      var s, t := Hex(a), Hex(b);
      assert s[..2] == HexByte(a[0]) && s[2..] == Hex(a[1..]);
      assert t[..2] == HexByte(b[0]) && t[2..] == Hex(b[1..]);
      HexInjective(a[1..], b[1..]);
      assert HexByte(a[0])[0] == HexByte(b[0])[0] && HexByte(a[0])[1] == HexByte(b[0])[1];
      assert a == [a[0]] + a[1..] && b == [b[0]] + b[1..];
    }
  }

  ghost predicate Apart(h: Hash, a: string, b: string) {
    h(a) == h(b) ==> a == b
  }

  /** Distinct texts among `inputs` have distinct digests. */
  ghost predicate CollisionFree(h: Hash, inputs: set<string>) {
    forall a, b {:trigger Apart(h, a, b)} :: a in inputs && b in inputs ==> Apart(h, a, b)
  }

  lemma {:induction false} EqualDigests(h: Hash, inputs: set<string>, a: string, b: string)
    requires CollisionFree(h, inputs) && a in inputs && b in inputs
    requires Sha256(h, a) == Sha256(h, b)
    ensures a == b
  {
    HexInjective(h(a), h(b));
    assert Apart(h, a, b);
  }

  lemma {:induction false} DigestHasNoColon(h: Hash, text: string)
    ensures ':' !in Sha256(h, text)
  {
    HexHasNoColon(h(text));
  }

  // ----- the hashed texts -----

  const EMPTY_TEXT := "empty:rmp"

  function CanonicalText(v: Json): string {
    Canonical(CodePoints, v)
  }

  function LeafText(path: string, v: Json): string {
    "leaf:" + path + ":" + CanonicalText(v)
  }

  function NodeText(left: string, right: string): string {
    "node:" + left + ":" + right
  }

  lemma {:induction false} TextKindsDiffer(path: string, v: Json, left: string, right: string)
    ensures LeafText(path, v) != NodeText(left, right)
    ensures LeafText(path, v) != EMPTY_TEXT
    ensures NodeText(left, right) != EMPTY_TEXT
  {
    assert LeafText(path, v)[0] == 'l';
    assert NodeText(left, right)[0] == 'n';
    assert EMPTY_TEXT[0] == 'e';
  }

  /** A node text made of colon-free children determines them if either claimed child is colon-free. */
  lemma {:induction false} NodeTextDetermines(left: string, right: string, a: string, b: string)
    requires ':' !in left && ':' !in right
    requires ':' !in a || ':' !in b
    requires NodeText(left, right) == NodeText(a, b)
    ensures left == a && right == b
  {
    CancelPrefix("node:", left + ":" + right, a + ":" + b) by {
      assert NodeText(left, right) == "node:" + (left + ":" + right);
      assert NodeText(a, b) == "node:" + (a + ":" + b);
    }
    if ':' !in a {
      SplitAtFirst(left, right, a, b, ':');
    } else {
      SplitAtLast(left, right, a, b, ':');
    }
  }

  // ----- scalar texts -----

  /** A quoted text: every quote strictly inside is escaped. */
  predicate Quoted(t: string) {
    && |t| >= 2 && t[0] == '\"' && t[|t| - 1] == '\"'
    && forall i :: 0 < i < |t| - 1 && t[i] == '\"' ==> t[i - 1] == '\\'
  }

  lemma {:induction false} EscapedQuotes(s: string, i: nat)
    requires i < |Escape(s)| && Escape(s)[i] == '\"'
    ensures i > 0 && Escape(s)[i - 1] == '\\'
  {
    var e := EscapeChar(s[0]);
    if i >= |e| {
      EscapedQuotes(s[1..], i - |e|);
    }
  }

  lemma {:induction false} StringTextIsQuoted(s: string)
    ensures Quoted(Quote(s))
  {
    var t := Quote(s);
    forall i | 0 < i < |t| - 1 && t[i] == '\"' ensures t[i - 1] == '\\' {
      EscapedQuotes(s, i - 1);
    }
  }

  /** The last character of a text tells strings, arrays and objects from the rest. */
  lemma {:induction false} LastCharacter(v: Json)
    ensures var t := CanonicalText(v);
            && |t| > 0
            && (t[|t| - 1] == '\"' <==> v.Str?)
            && (t[|t| - 1] == ']' <==> v.Arr?)
            && (t[|t| - 1] == '}' <==> v.Obj?)
  {
  }

  lemma {:induction false} ScalarText(v: Json)
    ensures v.Str? ==> Quoted(CanonicalText(v))
    ensures IsScalar(v) && !v.Str? ==> ':' !in CanonicalText(v)
  {
    if v.Str? {
      StringTextIsQuoted(v.s);
    }
  }

  /** No text of a value follows a colon inside the text of another value when either is a scalar. */
  lemma {:induction false} NoTextBehindColon(v: Json, w: Json, k: nat)
    requires IsScalar(v) || IsScalar(w)
    requires 0 < k < |CanonicalText(v)|
    requires CanonicalText(v)[k - 1] == ':'
    ensures CanonicalText(v)[k..] != CanonicalText(w)
  {
    var t, u := CanonicalText(v), CanonicalText(w);
    ScalarText(v);
    ScalarText(w);
    LastCharacter(v);
    LastCharacter(w);
    assert IsScalar(v) ==> v.Str? by {
      assert t[k - 1] in t;
    }
    var suffix := t[k..];
    assert suffix[0] == t[k] && suffix[|suffix| - 1] == t[|t| - 1];
  }

  lemma {:induction false} TailsAlign(p: string, t: string, q: string, u: string)
    requires p + ":" + t == q + ":" + u
    requires |u| <= |t|
    ensures t[|t| - |u|..] == u
    ensures |u| < |t| ==> t[|t| - |u| - 1] == ':'
    ensures |u| == |t| ==> p == q
  {
    var s := p + ":" + t;
    assert u == s[|q| + 1..] && t == s[|p| + 1..];
    assert s[|q|] == ':';
    assert p == s[..|p|] && q == s[..|q|];
  }

  lemma {:induction false} LeafTextBody(p: string, t: string, q: string, u: string)
    requires "leaf:" + p + ":" + t == "leaf:" + q + ":" + u
    ensures p + ":" + t == q + ":" + u
  {
    CancelPrefix("leaf:", p + ":" + t, q + ":" + u) by {
      assert "leaf:" + p + ":" + t == "leaf:" + (p + ":" + t);
      assert "leaf:" + q + ":" + u == "leaf:" + (q + ":" + u);
    }
  }

  /** The colon behind the path is recognisable although paths and texts may hold colons themselves. */
  lemma {:induction false} PathAndTextSplit(p: string, v: Json, q: string, w: Json)
    requires IsScalar(v) || IsScalar(w)
    requires p + ":" + CanonicalText(v) == q + ":" + CanonicalText(w)
    ensures p == q && CanonicalText(v) == CanonicalText(w)
  {
    hide CanonicalText;
    var t, u := CanonicalText(v), CanonicalText(w);
    LastCharacter(v);
    LastCharacter(w);
    if |u| <= |t| {
      TailsAlign(p, t, q, u);
      if |u| < |t| {
        NoTextBehindColon(v, w, |t| - |u|);
      }
    } else {
      TailsAlign(q, u, p, t);
      NoTextBehindColon(w, v, |u| - |t|);
    }
  }

  /** A leaf text determines the path and the value as soon as one of the values is a scalar. */
  lemma {:induction false} LeafTextDetermines(p: string, v: Json, q: string, w: Json)
    requires IsScalar(v) || IsScalar(w)
    requires LeafText(p, v) == LeafText(q, w)
    ensures p == q && v == w
  {
    LeafTextBody(p, CanonicalText(v), q, CanonicalText(w));
    PathAndTextSplit(p, v, q, w);
    JsonDecode.DecodeInvertsCanonical(CodePoints, v);
    JsonDecode.DecodeInvertsCanonical(CodePoints, w);
  }
}
