/**
 * The hash-chained provenance log. The log keeps the last thousand events; the hash of the last one
 * still binds every event ever recorded.
 */
module Provenance {
  import opened Wrappers
  import opened Sorting
  import opened Json
  import JsonDecode
  import opened Preimages

  const RMPE_SCHEMA_VERSION := "RMPE-2"
  const MAX_PROVENANCE_EVENTS := 1000

  datatype Event = Event(
    eventType: string,
    pinetVersion: string,
    source: string,
    clusterId: string,
    nodeId: string,
    payload: seq<Field>,
    metadata: seq<Field>,
    timestamp: Json,
    recordedAt: int,
    previousHash: Option<string>,
    rmpeHash: string,
    provenanceId: string)

  /** What the process around the log supplies: the digest, the release, and `str()` on values that are no strings. */
  datatype Environment = Environment(h: Hash, pinetVersion: string, render: Json -> string)

  // ----- recording one event -----

  datatype Outcome = Recorded(event: Event) | TypeError(message: string) | ValueError(message: string)

  predicate IsEventTypeChar(c: char) {
    'A' <= c <= 'Z' || 'a' <= c <= 'z' || '0' <= c <= '9' || c == '_' || c == '.' || c == ':' || c == '-'
  }

  predicate IsEventType(s: string) {
    1 <= |s| <= 80 && forall i :: 0 <= i < |s| ==> IsEventTypeChar(s[i])
  }

  function Text(env: Environment, v: Json): string {
    if v.Str? then v.s else (env.render)(v)
  }

  predicate IsReserved(key: string) {
    key == "event" || key == "eventType" || key == "payload" || key == "timestamp"
  }

  /** The entries of a body that are neither the type, the payload nor the timestamp. */
  function Metadata(body: seq<Field>): seq<Field> {
    if body == [] then []
    else if IsReserved(body[0].key) then Metadata(body[1..])
    else [body[0]] + Metadata(body[1..])
  }

  function PreviousJson(previousHash: Option<string>): Json {
    if previousHash.Some? then Str(previousHash.value) else Null
  }

  function UnsignedHead(e: Event): seq<Field> {
    [
      Field("schemaVersion", Str(RMPE_SCHEMA_VERSION)),
      Field("type", Str("pinet-provenance-event")),
      Field("eventType", Str(e.eventType)),
      Field("pinetVersion", Str(e.pinetVersion)),
      Field("source", Str(e.source)),
      Field("clusterId", Str(e.clusterId))
    ]
  }

  function UnsignedTail(e: Event): seq<Field> {
    [
      Field("nodeId", Str(e.nodeId)),
      Field("payload", Obj(e.payload)),
      Field("metadata", Obj(e.metadata)),
      Field("timestamp", e.timestamp),
      Field("recordedAt", Num(e.recordedAt)),
      Field("previousHash", PreviousJson(e.previousHash))
    ]
  }

  /** `unsigned_event`: everything in an event but its hash and its identifier. */
  function Unsigned(e: Event): Json {
    Obj(UnsignedHead(e) + UnsignedTail(e))
  }

  function UnsignedText(e: Event): string {
    Canonical(CodePoints, Unsigned(e))
  }

  /** Adds the hash and the identifier to an event. */
  function Sign(h: Hash, e: Event): Event {
    var digest := Sha256(h, UnsignedText(e));
    e.(rmpeHash := DIGEST_TAG + digest,
       provenanceId := "rmpe2:" + if |digest| >= 16 then digest[..16] else digest)
  }

  /** The type a body names: `eventType` if it has that key, else the alias `event`. */
  function KindOf(body: seq<Field>): Option<Json> {
    if Get(body, "eventType").Some? then Get(body, "eventType") else Get(body, "event")
  }

  /** The payload of a body: null and a missing one are the empty dictionary. */
  function PayloadOf(body: seq<Field>): Json {
    var given := Get(body, "payload").GetOr(Obj([]));
    if given.Null? then Obj([]) else given
  }

  /** The timestamp of a body if it is an integer, else the clock; Python's booleans are integers. */
  function StampOf(body: seq<Field>, now: int): Json {
    var stamp := Get(body, "timestamp").GetOr(Num(now));
    if stamp.Num? || stamp.Bool? then stamp else Num(now)
  }

  /** `record_provenance_event` up to the append, behind an event with the given hash. */
  function MakeEvent(env: Environment, previousHash: Option<string>, body: Json, source: string, now: int): Outcome {
    if !body.Obj? then TypeError("Provenance event body must be an object") else
      var kind, payload := KindOf(body.fields), PayloadOf(body.fields);
      if kind.None? || !kind.value.Str? || !IsEventType(kind.value.s) then
        ValueError("eventType must match [A-Za-z0-9_.:-]{1,80}")
      else if !payload.Obj? then TypeError("payload must be an object")
      else Recorded(Sign(env.h, Event(
        kind.value.s, env.pinetVersion, source,
        Text(env, Get(body.fields, "clusterId").GetOr(Str("local-cluster"))),
        Text(env, Get(body.fields, "nodeId").GetOr(Str("local-node"))),
        payload.fields, Metadata(body.fields),
        StampOf(body.fields, now), now, previousHash, "", "")))
  }

  function HeadHash(events: seq<Event>): Option<string> {
    if events == [] then None else Some(events[|events| - 1].rmpeHash)
  }

  function LastN(events: seq<Event>, n: nat): seq<Event> {
    if |events| > n then events[|events| - n..] else events
  }

  datatype Request = Request(body: Json, source: string, now: int)

  /** The log after one request: rejected requests leave it as it is. */
  function Step(env: Environment, events: seq<Event>, r: Request): seq<Event> {
    match MakeEvent(env, HeadHash(events), r.body, r.source, r.now)
    case Recorded(e) => LastN(events + [e], MAX_PROVENANCE_EVENTS)
    case _ => events
  }

  class ProvenanceStore {
    const env: Environment
    var events: seq<Event>

    constructor (env: Environment)
      ensures this.env == env && events == []
    {
      this.env := env;
      events := [];
    }

    /** `record_provenance_event`. */
    method Record(body: Json, source: string, now: int) returns (r: Outcome)
      modifies this
      ensures r == MakeEvent(env, HeadHash(old(events)), body, source, now)
      ensures events == Step(env, old(events), Request(body, source, now))
      ensures !r.Recorded? ==> events == old(events)
      ensures r.Recorded? ==>
                && Signed(env.h, r.event) && r.event.previousHash == HeadHash(old(events))
                && HoldsRequest(env, Request(body, source, now), r.event)
                && |events| <= 1000 && events[|events| - 1] == r.event
                && events == LastN(old(events) + [r.event], 1000)
    {
      hide MakeEvent, Signed, HoldsRequest;
      r := MakeEvent(env, HeadHash(events), body, source, now);
      if r.Recorded? {
        RecordedEvent(env, HeadHash(events), Request(body, source, now));
        RecordedHolds(env, HeadHash(events), Request(body, source, now));
        events := events + [r.event];
        if |events| > MAX_PROVENANCE_EVENTS {
          events := events[|events| - MAX_PROVENANCE_EVENTS..];
        }
      }
    }

    /** `get_provenance_events`. */
    method GetEvents(limit: Option<int>) returns (r: seq<Event>)
      ensures limit.None? ==> r == events
      ensures limit.Some? && limit.value > 0 ==> r == LastN(events, limit.value)
      ensures limit.Some? && limit.value <= 0 ==> r == if -limit.value < |events| then events[-limit.value..] else []
    {
      if limit.None? {
        return events;
      }
      return SliceFrom(events, -limit.value);
    }
  }

  /** Python's `events[start:]`, where a negative start counts from the end. */
  function SliceFrom(events: seq<Event>, start: int): seq<Event> {
    if start >= |events| then []
    else if start >= 0 then events[start..]
    else if |events| + start >= 0 then events[|events| + start..]
    else events
  }

  /** A limit selects that many of the last events exactly when it is positive, or when nothing is there to drop. */
  lemma {:induction false} LimitSelectsLast(events: seq<Event>, limit: int)
    ensures |SliceFrom(events, -limit)| == (if limit <= 0 then 0 else if limit < |events| then limit else |events|)
            <==> limit > 0 || events == [] || -limit >= |events|
    ensures limit > 0 ==> SliceFrom(events, -limit) == LastN(events, limit)
  {
  }

  // ----- runs -----

  /** The log after a run of requests. */
  function LogAfter(env: Environment, requests: seq<Request>): seq<Event> {
    if requests == [] then [] else
      Step(env, LogAfter(env, requests[..|requests| - 1]), requests[|requests| - 1])
  }

  /** All events accepted in a run, none forgotten. */
  function History(env: Environment, requests: seq<Request>): seq<Event> {
    if requests == [] then [] else
      var before := History(env, requests[..|requests| - 1]);
      var r := requests[|requests| - 1];
      match MakeEvent(env, HeadHash(before), r.body, r.source, r.now)
      case Recorded(e) => before + [e]
      case _ => before
  }

  ghost predicate Signed(h: Hash, e: Event) {
    e.rmpeHash == DIGEST_TAG + Sha256(h, UnsignedText(e)) && e == Sign(h, e)
  }

  ghost predicate Linked(events: seq<Event>, i: nat)
    requires 0 < i < |events|
  {
    events[i].previousHash == Some(events[i - 1].rmpeHash)
  }

  /** Every hash matches its own event and every event names the hash of its predecessor. */
  ghost predicate Chained(h: Hash, events: seq<Event>) {
    && (forall i {:trigger Signed(h, events[i])} :: 0 <= i < |events| ==> Signed(h, events[i]))
    && (forall i {:trigger Linked(events, i)} :: 0 < i < |events| ==> Linked(events, i))
  }

  ghost predicate WellFormedEvent(e: Event) {
    WellFormed(Obj(e.payload)) && WellFormed(Obj(e.metadata)) && (e.timestamp.Num? || e.timestamp.Bool?)
  }

  lemma {:induction false} SignSigned(h: Hash, e: Event)
    ensures Signed(h, Sign(h, e))
  {
    hide Sha256, Canonical;
    var digest := Sha256(h, UnsignedText(e));
    var s := Sign(h, e);
    assert s.rmpeHash == DIGEST_TAG + digest;
    assert UnsignedText(s) == UnsignedText(e) by {
      assert UnsignedHead(s) == UnsignedHead(e);
      assert UnsignedTail(s) == UnsignedTail(e);
    }
    hide UnsignedText;
  }

  lemma {:induction false} RecordedEvent(env: Environment, previousHash: Option<string>, r: Request)
    requires MakeEvent(env, previousHash, r.body, r.source, r.now).Recorded?
    ensures var e := MakeEvent(env, previousHash, r.body, r.source, r.now).event;
            && Signed(env.h, e)
            && e.previousHash == previousHash
            && (e.timestamp.Num? || e.timestamp.Bool?)
            && e.metadata == Metadata(r.body.fields)
            && (e.payload == [] || Field("payload", Obj(e.payload)) in r.body.fields)
  {
    forall e ensures Signed(env.h, Sign(env.h, e)) { SignSigned(env.h, e); }
    hide Metadata, Text, IsEventType, KindOf, Signed, UnsignedText, Sha256;
  }

  /** The metadata holds exactly the entries of the body that have no other place in the event. */
  lemma {:induction false} MetadataMembers(body: seq<Field>)
    ensures forall f :: f in Metadata(body) <==> f in body && !IsReserved(f.key)
  {
    if body != [] {
      MetadataMembers(body[1..]);
      assert body == [body[0]] + body[1..];
    }
  }

  /** The type of an event: `eventType` if the body has that key, whatever its value, else the alias `event`. */
  ghost predicate HasType(body: seq<Field>, kind: string) {
    || Get(body, "eventType") == Some(Str(kind))
    || (Get(body, "eventType") == None && Get(body, "event") == Some(Str(kind)))
  }

  ghost predicate HasPayload(body: seq<Field>, payload: seq<Field>) {
    || Get(body, "payload") == Some(Obj(payload))
    || (payload == [] && (Get(body, "payload") == None || Get(body, "payload") == Some(Null)))
  }

  /** The identifier of a body under a key: the given text, a rendering of what is no text, or the default. */
  ghost predicate IsTextOf(env: Environment, body: seq<Field>, key: string, default: string, text: string) {
    && (Get(body, key) == None ==> text == default)
    && (Get(body, key).Some? && Get(body, key).value.Str? ==> Get(body, key) == Some(Str(text)))
    && (Get(body, key).Some? && !Get(body, key).value.Str? ==> text == (env.render)(Get(body, key).value))
  }

  ghost predicate IsInteger(v: Option<Json>) {
    v.Some? && (v.value.Num? || v.value.Bool?)
  }

  /** Everything an event holds of the request it records. */
  ghost predicate HoldsRequest(env: Environment, r: Request, e: Event) {
    && r.body.Obj?
    && var body := r.body.fields;
       && HasType(body, e.eventType)
       && HasPayload(body, e.payload)
       && IsTextOf(env, body, "clusterId", "local-cluster", e.clusterId)
       && IsTextOf(env, body, "nodeId", "local-node", e.nodeId)
       && e.source == r.source && e.pinetVersion == env.pinetVersion && e.recordedAt == r.now
       && (IsInteger(Get(body, "timestamp")) ==> Get(body, "timestamp") == Some(e.timestamp))
       && (!IsInteger(Get(body, "timestamp")) ==> e.timestamp == Num(r.now))
       && (forall f :: f in e.metadata <==>
             f in body && f.key != "event" && f.key != "eventType" && f.key != "payload" && f.key != "timestamp")
  }

  lemma {:induction false} SignChangesHash(h: Hash, e: Event)
    ensures var s := Sign(h, e);
            && s.(rmpeHash := e.rmpeHash, provenanceId := e.provenanceId) == e
  {
    hide UnsignedText, Sha256;
  }

  lemma {:induction false} RecordedHolds(env: Environment, previousHash: Option<string>, r: Request)
    requires MakeEvent(env, previousHash, r.body, r.source, r.now).Recorded?
    ensures HoldsRequest(env, r, MakeEvent(env, previousHash, r.body, r.source, r.now).event)
  {
    hide Metadata, IsEventType, KindOf, PayloadOf, HasType, HasPayload, Sign;
    var body := r.body.fields;
    forall e { SignChangesHash(env.h, e); }
    KindIsType(body);
    PayloadIsPayload(body);
    MetadataMembers(body);
  }

  /** What is hashed of an event: every field but the hash and the identifier, under its name. */
  lemma {:induction false} UnsignedFields(e: Event)
    ensures var fields := Unsigned(e).fields;
            && Keys(fields) == ["schemaVersion", "type", "eventType", "pinetVersion", "source", "clusterId",
                                "nodeId", "payload", "metadata", "timestamp", "recordedAt", "previousHash"]
            && fields[0].value == Str("RMPE-2") && fields[1].value == Str("pinet-provenance-event")
            && fields[2].value == Str(e.eventType) && fields[3].value == Str(e.pinetVersion)
            && fields[4].value == Str(e.source) && fields[5].value == Str(e.clusterId)
            && fields[6].value == Str(e.nodeId) && fields[7].value == Obj(e.payload)
            && fields[8].value == Obj(e.metadata) && fields[9].value == e.timestamp
            && fields[10].value == Num(e.recordedAt)
            && fields[11].value == if e.previousHash.Some? then Str(e.previousHash.value) else Null
  {
    hide Keys;
    SixKeys(UnsignedHead(e));
    SixKeys(UnsignedTail(e));
    KeysJoin(UnsignedHead(e), UnsignedTail(e));
  }

  lemma {:induction false} SixKeys(fields: seq<Field>)
    requires |fields| == 6
    ensures Keys(fields) == [fields[0].key, fields[1].key, fields[2].key, fields[3].key, fields[4].key, fields[5].key]
  {
  }

  lemma {:induction false} KeysJoin(xs: seq<Field>, ys: seq<Field>)
    ensures Keys(xs + ys) == Keys(xs) + Keys(ys)
  {
    hide Keys;
  }

  /** A signed event carries the tagged digest of its canonical text, and the first 16 digits of it as identifier. */
  lemma {:induction false} SignedFields(h: Hash, e: Event)
    requires Signed(h, e)
    ensures var digest := Sha256(h, Canonical(CodePoints, Unsigned(e)));
            && e.rmpeHash == "sha256:" + digest
            && (|digest| >= 16 ==> e.provenanceId == "rmpe2:" + digest[..16])
  {
    hide Sha256, Canonical, Unsigned;
  }

  /** Which error a request that is not recorded raises. */
  lemma {:induction false} RejectedBecause(env: Environment, previousHash: Option<string>, r: Request)
    ensures var outcome := MakeEvent(env, previousHash, r.body, r.source, r.now);
            && (outcome == TypeError("Provenance event body must be an object") <==> !r.body.Obj?)
            && (outcome.ValueError? <==> r.body.Obj? && !exists kind :: HasType(r.body.fields, kind) && IsAllowedType(kind))
            && (outcome.TypeError? ==> outcome.message == "Provenance event body must be an object"
                                       || outcome.message == "payload must be an object")
  {
    hide Sign, Metadata, Text, IsEventType, KindOf, PayloadOf, StampOf, HasType, IsAllowedType;
    assert |"Provenance event body must be an object"| != |"payload must be an object"|;
    forall kind { EventTypeIff(kind); }
    if r.body.Obj? {
      KindIsType(r.body.fields);
    }
  }

  /** The characters of `[A-Za-z0-9_.:-]` by their code points. */
  predicate IsAllowedType(kind: string) {
    && 1 <= |kind| <= 80
    && forall i :: 0 <= i < |kind| ==>
         var c := kind[i] as int;
         65 <= c <= 90 || 97 <= c <= 122 || 48 <= c <= 58 || c == 95 || c == 46 || c == 45
  }

  lemma {:induction false} EventTypeIff(kind: string)
    ensures IsEventType(kind) <==> IsAllowedType(kind)
  {
  }

  /**
   * A body is recorded exactly when it is a dictionary with a valid type and with a payload that is a
   * dictionary, null or missing; and this type and payload are what the event holds.
   */
  lemma {:induction false} RecordedIff(env: Environment, previousHash: Option<string>, r: Request)
    ensures var outcome := MakeEvent(env, previousHash, r.body, r.source, r.now);
            && (outcome.Recorded? <==>
                r.body.Obj?
                && (exists kind :: HasType(r.body.fields, kind) && IsAllowedType(kind))
                && (exists payload :: HasPayload(r.body.fields, payload)))
            && (outcome.Recorded? ==>
                && HasType(r.body.fields, outcome.event.eventType)
                && HasPayload(r.body.fields, outcome.event.payload))
  {
    hide Sign, Metadata, Text, IsEventType, KindOf, PayloadOf, StampOf, HasType, HasPayload, IsAllowedType;
    forall kind { EventTypeIff(kind); }
    if r.body.Obj? {
      KindIsType(r.body.fields);
      PayloadIsPayload(r.body.fields);
      forall e { SignKeeps(env.h, e); }
    }
  }

  lemma {:induction false} SignKeeps(h: Hash, e: Event)
    ensures Sign(h, e).eventType == e.eventType && Sign(h, e).payload == e.payload
  {
  }

  lemma {:induction false} KindIsType(body: seq<Field>)
    ensures forall kind :: HasType(body, kind) <==> KindOf(body) == Some(Str(kind))
  {
    hide Get;
  }

  lemma {:induction false} PayloadIsPayload(body: seq<Field>)
    ensures forall payload :: HasPayload(body, payload) <==> PayloadOf(body) == Obj(payload)
  {
    hide Get;
  }

  lemma {:induction false} ChainGrows(h: Hash, events: seq<Event>, e: Event)
    requires Chained(h, events) && Signed(h, e) && e.previousHash == HeadHash(events)
    ensures Chained(h, events + [e])
  {
    hide Signed;
    var r := events + [e];
    forall i | 0 <= i < |r| ensures Signed(h, r[i]) {
      if i < |events| { assert Signed(h, events[i]); }
    }
    forall i | 0 < i < |r| ensures Linked(r, i) {
      if i < |events| { assert Linked(events, i); }
    }
  }

  lemma {:induction false} WindowGrows(events: seq<Event>, e: Event, n: nat)
    requires n > 0
    ensures LastN(LastN(events, n) + [e], n) == LastN(events + [e], n)
  {
  }

  lemma {:induction false} SameHead(events: seq<Event>, n: nat)
    requires n > 0
    ensures HeadHash(LastN(events, n)) == HeadHash(events)
  {
  }

  /**
   * In every run the log is the window of the last thousand accepted events of an unbroken chain that
   * starts without a predecessor.
   */
  lemma {:induction false} LogIsWindowOfHistory(env: Environment, requests: seq<Request>)
    ensures var all := History(env, requests);
            && LogAfter(env, requests) == LastN(all, 1000)
            && Chained(env.h, all)
            && (all != [] ==> all[0].previousHash == None)
  {
    if requests != [] {
      var before, r := requests[..|requests| - 1], requests[|requests| - 1];
      var all := History(env, before);
      LogIsWindowOfHistory(env, before);
      var outcome := MakeEvent(env, HeadHash(all), r.body, r.source, r.now);
      SameHead(all, MAX_PROVENANCE_EVENTS);
      if outcome.Recorded? {
        WindowGrows(all, outcome.event, MAX_PROVENANCE_EVENTS);
        RecordedEvent(env, HeadHash(all), r);
        ChainGrows(env.h, all, outcome.event);
      }
    }
  }

  lemma {:induction false} MetadataKeys(body: seq<Field>)
    requires NoDuplicates(Keys(body))
    ensures NoDuplicates(Keys(Metadata(body)))
    ensures forall k :: k in Keys(Metadata(body)) ==> k in Keys(body)
  {
    hide NoDuplicates, IsReserved;
    if body == [] {
      assert Metadata(body) == body;
    } else {
      var rest, kept := Keys(body[1..]), Metadata(body[1..]);
      assert Keys(body) == [body[0].key] + rest by {
        assert body == [body[0]] + body[1..];
        KeysCons(body[0], body[1..]);
      }
      hide Keys;
      DistinctCons(body[0].key, rest);
      MetadataKeys(body[1..]);
      KeysCons(body[0], kept);
      DistinctCons(body[0].key, Keys(kept));
      assert Metadata(body) == if IsReserved(body[0].key) then kept else [body[0]] + kept;
    }
  }

  lemma {:induction false} MetadataWellFormed(body: seq<Field>)
    requires WellFormed(Obj(body))
    ensures WellFormed(Obj(Metadata(body)))
  {
    hide Keys, Metadata;
    var r := Metadata(body);
    MetadataKeys(body);
    MetadataMembers(body);
    forall i | 0 <= i < |r| ensures WellFormed(r[i].value) {
      assert r[i] in body;
    }
  }

  lemma {:induction false} HistoryWellFormed(env: Environment, requests: seq<Request>)
    requires forall i :: 0 <= i < |requests| ==> WellFormed(requests[i].body)
    ensures forall i :: 0 <= i < |History(env, requests)| ==> WellFormedEvent(History(env, requests)[i])
  {
    hide MakeEvent, WellFormed, WellFormedEvent;
    if requests != [] {
      var before, r := requests[..|requests| - 1], requests[|requests| - 1];
      HistoryWellFormed(env, before);
      var all := History(env, before);
      if MakeEvent(env, HeadHash(all), r.body, r.source, r.now).Recorded? {
        RecordedWellFormed(env, HeadHash(all), r);
      }
    }
  }

  lemma {:induction false} RecordedWellFormed(env: Environment, previousHash: Option<string>, r: Request)
    requires WellFormed(r.body) && MakeEvent(env, previousHash, r.body, r.source, r.now).Recorded?
    ensures WellFormedEvent(MakeEvent(env, previousHash, r.body, r.source, r.now).event)
  {
    var e := MakeEvent(env, previousHash, r.body, r.source, r.now).event;
    RecordedEvent(env, previousHash, r);
    MetadataWellFormed(r.body.fields);
    EntryWellFormed(r.body.fields, e.payload);
  }

  lemma {:induction false} EntryWellFormed(body: seq<Field>, payload: seq<Field>)
    requires WellFormed(Obj(body))
    requires payload == [] || Field("payload", Obj(payload)) in body
    ensures WellFormed(Obj(payload))
  {
    if payload != [] {
      var i :| 0 <= i < |body| && body[i] == Field("payload", Obj(payload));
      assert WellFormed(body[i].value);
    }
  }
}
