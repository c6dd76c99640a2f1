/** The HKDF of the CPIP cipher: extract and expand of RFC 5869 over HMAC-SHA256, which stays abstract. */
module Hkdf {
  import opened Wrappers
  import opened Preimages

  type Bytes = seq<byte>

  const DIGEST_LENGTH := 32

  /** HMAC-SHA256, byte by byte. */
  type Mac = (Bytes, Bytes, nat) -> byte

  function Hmac(mac: Mac, key: Bytes, message: Bytes): (d: Bytes)
    ensures |d| == DIGEST_LENGTH
  {
    seq(DIGEST_LENGTH, i requires 0 <= i => mac(key, message, i))
  }

  function Extract(mac: Mac, salt: Bytes, ikm: Bytes): Bytes {
    Hmac(mac, salt, ikm)
  }

  /** T(i) of section 2.3 of RFC 5869: the empty string, then each block keyed over its predecessor. */
  function Block(mac: Mac, prk: Bytes, info: Bytes, i: nat): (t: Bytes)
    requires i < 256
    ensures i > 0 ==> |t| == DIGEST_LENGTH
  {
    if i == 0 then [] else Hmac(mac, prk, Block(mac, prk, info, i - 1) + info + [i as byte])
  }

  /** T(1) | T(2) | ... | T(n). */
  function Blocks(mac: Mac, prk: Bytes, info: Bytes, n: nat): (r: Bytes)
    requires n < 256
    ensures |r| == n * DIGEST_LENGTH
  {
    if n == 0 then [] else Blocks(mac, prk, info, n - 1) + Block(mac, prk, info, n)
  }

  /** What `length` bytes of output consist of: the first bytes of the blocks, none for a length below one. */
  predicate IsOutput(mac: Mac, prk: Bytes, info: Bytes, length: int, okm: Bytes) {
    && |okm| == (if length > 0 then length else 0)
    && length <= 255 * DIGEST_LENGTH
    && forall j :: 0 <= j < |okm| ==>
         okm[j] == Block(mac, prk, info, j / DIGEST_LENGTH + 1)[j % DIGEST_LENGTH]
  }

  lemma {:induction false} BlocksAt(mac: Mac, prk: Bytes, info: Bytes, n: nat, j: nat)
    requires n < 256 && j < n * DIGEST_LENGTH
    ensures Blocks(mac, prk, info, n)[j] == Block(mac, prk, info, j / DIGEST_LENGTH + 1)[j % DIGEST_LENGTH]
  {
    if j < (n - 1) * DIGEST_LENGTH {
      BlocksAt(mac, prk, info, n - 1, j);
    } else {
      assert j / DIGEST_LENGTH == n - 1;
    }
  }

  /**
   * `_hkdf_expand`. The block counter is one byte, so that more than 255 blocks raise a ValueError; up to
   * there the output is exactly what RFC 5869 demands.
   */
  method Expand(mac: Mac, prk: Bytes, info: Bytes, length: int) returns (r: Option<Bytes>)
    ensures r.None? <==> length > 255 * 32
    ensures r.Some? ==> IsOutput(mac, prk, info, length, r.value)
  {
    var n := (length + 31) / 32;
    var okm, t: Bytes := [], [];
    var i: nat := 1;
    while i <= n
      invariant 1 <= i <= 256 && (n >= 0 ==> i <= n + 1) && (n < 0 ==> i == 1)
      invariant t == Block(mac, prk, info, i - 1)
      invariant okm == Blocks(mac, prk, info, i - 1)
    {
      if i > 255 {
        return None;
      }
      t := Hmac(mac, prk, t + info + [i as byte]);
      okm := okm + t;
      i := i + 1;
    }
    if n > 0 {
      forall j: nat | j < |okm|
        ensures okm[j] == Block(mac, prk, info, j / DIGEST_LENGTH + 1)[j % DIGEST_LENGTH]
      {
        BlocksAt(mac, prk, info, n, j);
      }
    }
    return Some(if length > 0 then okm[..length] else []);
  }

  /** `hkdf`: extract, then expand. */
  method Derive(mac: Mac, ikm: Bytes, salt: Bytes, info: Bytes, length: int) returns (r: Option<Bytes>)
    ensures r.None? <==> length > 255 * 32
    ensures r.Some? ==> IsOutput(mac, Hmac(mac, salt, ikm), info, length, r.value)
  {
    r := Expand(mac, Extract(mac, salt, ikm), info, length);
  }

  /** The blocks of section 2.3 of RFC 5869: T(0) is empty, and T(i) = HMAC(PRK, T(i-1) | info | i). */
  ghost predicate AreBlocks(mac: Mac, prk: Bytes, info: Bytes, ts: seq<Bytes>) {
    && 0 < |ts| <= 256 && ts[0] == []
    && forall i {:trigger ts[i]} :: 0 < i < |ts| ==> ts[i] == Hmac(mac, prk, ts[i - 1] + info + [i as byte])
  }

  lemma {:induction false} BlocksAreUnique(mac: Mac, prk: Bytes, info: Bytes, ts: seq<Bytes>, i: nat)
    requires AreBlocks(mac, prk, info, ts) && i < |ts|
    ensures ts[i] == Block(mac, prk, info, i)
  {
    if i > 0 {
      BlocksAreUnique(mac, prk, info, ts, i - 1);
      assert ts[i] == Hmac(mac, prk, ts[i - 1] + info + [i as byte]);
    }
  }

  /** The output is the first bytes of T(1) | T(2) | ..., 32 from each block. */
  lemma {:induction false} OutputIsOfBlocks(mac: Mac, prk: Bytes, info: Bytes, length: int, okm: Bytes, ts: seq<Bytes>, j: nat)
    requires IsOutput(mac, prk, info, length, okm) && AreBlocks(mac, prk, info, ts)
    requires j < |okm| && j / 32 + 1 < |ts|
    ensures |ts[j / 32 + 1]| == 32 && okm[j] == ts[j / 32 + 1][j % 32]
  {
    BlocksAreUnique(mac, prk, info, ts, j / 32 + 1);
  }

  /** The output is determined, and a shorter output is a prefix of a longer one. */
  lemma {:induction false} OutputsArePrefixes(mac: Mac, prk: Bytes, info: Bytes, short: int, long: int, a: Bytes, b: Bytes)
    requires short <= long && IsOutput(mac, prk, info, short, a) && IsOutput(mac, prk, info, long, b)
    ensures a <= b
  {
    forall j | 0 <= j < |a| ensures a[j] == b[j] {
    }
  }
}
