/** The hash of the last event determines the whole history of a log, trimmed events included. */
module ProvenanceBinding {
  import opened Wrappers
  import Text
  import opened Sorting
  import opened Json
  import JsonDecode
  import opened Preimages
  import opened Provenance

  /** Two events that agree on everything; payload, metadata and timestamp up to the order of keys. */
  ghost predicate SameEvent(e: Event, f: Event) {
    && e.(payload := [], metadata := []) == f.(payload := [], metadata := [])
    && Equivalent(Obj(e.payload), Obj(f.payload))
    && Equivalent(Obj(e.metadata), Obj(f.metadata))
  }

  ghost function EventTexts(events: seq<Event>): set<string> {
    set i | 0 <= i < |events| :: UnsignedText(events[i])
  }

  ghost predicate Covers(inputs: set<string>, e: Event) {
    UnsignedText(e) in inputs && WellFormedEvent(e)
  }

  /** The texts of well-formed events are among `inputs`. */
  ghost predicate AllCovered(inputs: set<string>, events: seq<Event>) {
    forall i {:trigger Covers(inputs, events[i])} :: 0 <= i < |events| ==> Covers(inputs, events[i])
  }

  ghost predicate AllWellFormed(events: seq<Event>) {
    forall i :: 0 <= i < |events| ==> WellFormedEvent(events[i])
  }

  lemma {:induction false} TextsAreCovered(inputs: set<string>, events: seq<Event>)
    requires EventTexts(events) <= inputs && AllWellFormed(events)
    ensures AllCovered(inputs, events)
  {
    forall i | 0 <= i < |events| ensures Covers(inputs, events[i]) {
      assert UnsignedText(events[i]) in EventTexts(events);
    }
  }

  // ----- the unsigned event is a dictionary -----

  /** Tells the twelve keys of an event apart. */
  function Fingerprint(key: string): (int, int) {
    (|key|, if |key| > 2 then key[2] as int else 0)
  }

  const FINGERPRINTS: seq<(int, int)> := [
    (13, 104), (4, 112), (9, 101), (12, 110), (6, 117), (9, 117),
    (6, 100), (7, 121), (8, 116), (9, 109), (10, 99), (12, 101)]

  lemma {:induction false} KeyFingerprints(e: Event, i: nat)
    requires i < 12
    ensures Fingerprint(UnsignedField(e, i).key) == FINGERPRINTS[i]
  {
  }

  function UnsignedField(e: Event, i: nat): Field
    requires i < 12
  {
    if i < 6 then UnsignedHead(e)[i] else UnsignedTail(e)[i - 6]
  }

  lemma {:induction false} UnsignedFieldAt(e: Event, i: nat)
    requires i < 12
    ensures |Unsigned(e).fields| == 12 && Unsigned(e).fields[i] == UnsignedField(e, i)
  {
  }

  lemma {:induction false} KeysDiffer(e: Event, i: nat, j: nat)
    requires i < j < 12
    ensures UnsignedField(e, i).key != UnsignedField(e, j).key
  {
    KeyFingerprints(e, i);
    KeyFingerprints(e, j);
    assert FINGERPRINTS[i] != FINGERPRINTS[j];
  }

  lemma {:induction false} ValueWellFormed(e: Event, i: nat)
    requires WellFormedEvent(e) && i < 12
    ensures WellFormed(UnsignedField(e, i).value)
  {
  }

  lemma {:induction false} FieldsWellFormed(fields: seq<Field>, e: Event)
    requires |fields| == 12 && forall i :: 0 <= i < 12 ==> fields[i] == UnsignedField(e, i)
    requires WellFormedEvent(e)
    ensures WellFormed(Obj(fields))
  {
    var keys := Keys(fields);
    forall i, j | 0 <= i < j < |keys| ensures keys[i] != keys[j] {
      KeysDiffer(e, i, j);
    }
    forall i | 0 <= i < |fields| ensures WellFormed(fields[i].value) {
      ValueWellFormed(e, i);
    }
  }

  lemma {:induction false} UnsignedWellFormed(e: Event)
    requires WellFormedEvent(e)
    ensures WellFormed(Unsigned(e))
  {
    var fields := Unsigned(e).fields;
    forall i | 0 <= i < 12 ensures |fields| == 12 && fields[i] == UnsignedField(e, i) {
      UnsignedFieldAt(e, i);
    }
    UnsignedFieldAt(e, 0);
    FieldsWellFormed(fields, e);
  }

  /** Dictionaries with the same keys in the same places are equal when their values are. */
  lemma {:induction false} FieldwiseEqual(e: Event, f: Event, i: nat)
    requires Equivalent(Unsigned(e), Unsigned(f)) && i < 6
    ensures |UnsignedHead(e)| == |UnsignedTail(e)| == |UnsignedHead(f)| == |UnsignedTail(f)| == 6
    ensures Equivalent(UnsignedHead(e)[i].value, UnsignedHead(f)[i].value)
    ensures Equivalent(UnsignedTail(e)[i].value, UnsignedTail(f)[i].value)
  {
    var fs, gs := Unsigned(e).fields, Unsigned(f).fields;
    assert fs[i] == UnsignedHead(e)[i] && gs[i] == UnsignedHead(f)[i];
    assert fs[i + 6] == UnsignedTail(e)[i] && gs[i + 6] == UnsignedTail(f)[i];
    assert fs[i].key == gs[i].key && fs[i + 6].key == gs[i + 6].key;
  }

  lemma {:induction false} HeadDetermines(e: Event, f: Event)
    requires Equivalent(Unsigned(e), Unsigned(f))
    ensures e.eventType == f.eventType && e.pinetVersion == f.pinetVersion
    ensures e.source == f.source && e.clusterId == f.clusterId
  {
    FieldwiseEqual(e, f, 2);
    FieldwiseEqual(e, f, 3);
    FieldwiseEqual(e, f, 4);
    FieldwiseEqual(e, f, 5);
  }

  lemma {:induction false} TailDetermines(e: Event, f: Event)
    requires WellFormedEvent(e) && WellFormedEvent(f) && Equivalent(Unsigned(e), Unsigned(f))
    ensures e.nodeId == f.nodeId && Equivalent(Obj(e.payload), Obj(f.payload))
    ensures Equivalent(Obj(e.metadata), Obj(f.metadata)) && e.timestamp == f.timestamp
    ensures e.recordedAt == f.recordedAt && e.previousHash == f.previousHash
  {
    hide Unsigned, UnsignedHead, WellFormed;
    FieldwiseEqual(e, f, 0);
    FieldwiseEqual(e, f, 1);
    FieldwiseEqual(e, f, 2);
    FieldwiseEqual(e, f, 3);
    FieldwiseEqual(e, f, 4);
    FieldwiseEqual(e, f, 5);
  }

  // ----- the chain -----

  /** Events with the same hash are the same event. */
  lemma {:induction false} HashDeterminesEvent(h: Hash, inputs: set<string>, e: Event, f: Event)
    requires Signed(h, e) && Signed(h, f) && WellFormedEvent(e) && WellFormedEvent(f)
    requires CollisionFree(h, inputs) && UnsignedText(e) in inputs && UnsignedText(f) in inputs
    requires e.rmpeHash == f.rmpeHash
    ensures SameEvent(e, f)
  {
    Text.CancelPrefix(DIGEST_TAG, Sha256(h, UnsignedText(e)), Sha256(h, UnsignedText(f)));
    EqualDigests(h, inputs, UnsignedText(e), UnsignedText(f));
    UnsignedWellFormed(e);
    UnsignedWellFormed(f);
    JsonDecode.CanonicalIffEquivalent(CodePoints, Unsigned(e), Unsigned(f));
    HeadDetermines(e, f);
    TailDetermines(e, f);
    SameIdentifier(h, e, f);
  }

  lemma {:induction false} SameIdentifier(h: Hash, e: Event, f: Event)
    requires Signed(h, e) && Signed(h, f) && UnsignedText(e) == UnsignedText(f)
    ensures e.provenanceId == f.provenanceId
  {
  }

  ghost predicate SameHashes(a: seq<Event>, i: nat, b: seq<Event>, j: nat)
    requires i < |a| && j < |b|
  {
    a[i].rmpeHash == b[j].rmpeHash
  }

  lemma {:induction false} SameHashSameEvent(h: Hash, inputs: set<string>, a: seq<Event>, i: nat, b: seq<Event>, j: nat)
    requires Chained(h, a) && Chained(h, b)
    requires CollisionFree(h, inputs) && AllCovered(inputs, a) && AllCovered(inputs, b)
    requires i < |a| && j < |b| && SameHashes(a, i, b, j)
    ensures SameEvent(a[i], b[j])
  {
    assert Covers(inputs, a[i]) && Covers(inputs, b[j]);
    assert Signed(h, a[i]) && Signed(h, b[j]);
    HashDeterminesEvent(h, inputs, a[i], b[j]);
  }

  lemma {:induction false} PredecessorHashes(a: seq<Event>, i: nat, b: seq<Event>, j: nat)
    requires 0 < i < |a| && 0 < j < |b| && Linked(a, i) && Linked(b, j)
    requires SameEvent(a[i], b[j])
    ensures SameHashes(a, i - 1, b, j - 1)
  {
  }

  /** Chains that end in the same hash have the same hashes backwards, as far as both reach. */
  lemma {:induction false} ChainHashesAgree(h: Hash, inputs: set<string>, a: seq<Event>, b: seq<Event>, k: nat)
    requires Chained(h, a) && Chained(h, b)
    requires CollisionFree(h, inputs) && AllCovered(inputs, a) && AllCovered(inputs, b)
    requires k < |a| && k < |b| && HeadHash(a) == HeadHash(b)
    ensures SameHashes(a, |a| - 1 - k, b, |b| - 1 - k)
  {
    if k > 0 {
      var i, j := |a| - k, |b| - k;
      ChainHashesAgree(h, inputs, a, b, k - 1);
      SameHashSameEvent(h, inputs, a, i, b, j);
      assert Linked(a, i) && Linked(b, j);
      PredecessorHashes(a, i, b, j);
    }
  }

  lemma {:induction false} ChainsAgree(h: Hash, inputs: set<string>, a: seq<Event>, b: seq<Event>, k: nat)
    requires Chained(h, a) && Chained(h, b)
    requires CollisionFree(h, inputs) && AllCovered(inputs, a) && AllCovered(inputs, b)
    requires k < |a| && k < |b| && HeadHash(a) == HeadHash(b)
    ensures SameEvent(a[|a| - 1 - k], b[|b| - 1 - k])
  {
    ChainHashesAgree(h, inputs, a, b, k);
    SameHashSameEvent(h, inputs, a, |a| - 1 - k, b, |b| - 1 - k);
  }

  /** The shorter of two windows is a suffix of the longer. */
  ghost predicate IsSuffix(a: seq<Event>, b: seq<Event>) {
    |a| <= |b| && forall i :: 0 <= i < |a| ==> SameEvent(a[i], b[|b| - |a| + i])
  }

  /**
   * Of two windows that end in the same hash the shorter is a suffix of the longer; if it starts with an
   * event without a predecessor the windows have equal length.
   */
  lemma {:induction false} HeadBindsWindow(h: Hash, inputs: set<string>, a: seq<Event>, b: seq<Event>)
    requires Chained(h, a) && Chained(h, b)
    requires CollisionFree(h, inputs) && AllCovered(inputs, a) && AllCovered(inputs, b)
    requires a != [] && |a| <= |b| && HeadHash(a) == HeadHash(b)
    ensures IsSuffix(a, b)
    ensures a[0].previousHash == None ==> |a| == |b|
  {
    forall i | 0 <= i < |a| ensures SameEvent(a[i], b[|b| - |a| + i]) {
      ChainsAgree(h, inputs, a, b, |a| - 1 - i);
    }
    assert SameEvent(a[0], b[|b| - |a|]);
    if |a| < |b| {
      assert Linked(b, |b| - |a|);
    }
  }

  lemma {:induction false} HistoryFacts(env: Environment, requests: seq<Request>)
    requires forall i :: 0 <= i < |requests| ==> WellFormed(requests[i].body)
    ensures var all := History(env, requests);
            && HeadHash(all) == HeadHash(LogAfter(env, requests))
            && (LogAfter(env, requests) != [] ==> all != [] && all[0].previousHash == None)
            && Chained(env.h, all) && AllWellFormed(all)
  {
    LogIsWindowOfHistory(env, requests);
    HistoryWellFormed(env, requests);
    SameHead(History(env, requests), MAX_PROVENANCE_EVENTS);
  }

  /** Whole histories that end in the same hash are the same. */
  lemma {:induction false} HeadBindsChain(h: Hash, a: seq<Event>, b: seq<Event>)
    requires Chained(h, a) && Chained(h, b) && AllWellFormed(a) && AllWellFormed(b)
    requires a != [] && a[0].previousHash == None && b != [] && b[0].previousHash == None
    requires HeadHash(a) == HeadHash(b) && CollisionFree(h, EventTexts(a) + EventTexts(b))
    ensures |a| == |b| && IsSuffix(a, b)
  {
    var inputs := EventTexts(a) + EventTexts(b);
    TextsAreCovered(inputs, a);
    TextsAreCovered(inputs, b);
    if |a| <= |b| {
      HeadBindsWindow(h, inputs, a, b);
    } else {
      HeadBindsWindow(h, inputs, b, a);
    }
  }

  /**
   * Two runs whose logs end in the same hash recorded the same events from the first on, although each
   * log only keeps the last thousand, unless two recorded events collide.
   */
  lemma {:induction false} HeadBindsHistory(left: Environment, right: Environment, xs: seq<Request>, ys: seq<Request>)
    requires left.h == right.h
    requires forall i :: 0 <= i < |xs| ==> WellFormed(xs[i].body)
    requires forall i :: 0 <= i < |ys| ==> WellFormed(ys[i].body)
    requires LogAfter(left, xs) != [] && LogAfter(right, ys) != []
    requires HeadHash(LogAfter(left, xs)) == HeadHash(LogAfter(right, ys))
    ensures var a, b := History(left, xs), History(right, ys);
            || (|a| == |b| && IsSuffix(a, b))
            || !CollisionFree(left.h, EventTexts(a) + EventTexts(b))
  {
    var a, b := History(left, xs), History(right, ys);
    HistoryFacts(left, xs);
    HistoryFacts(right, ys);
    if CollisionFree(left.h, EventTexts(a) + EventTexts(b)) {
      HeadBindsChain(left.h, a, b);
    }
  }
}
