/**
 The domain notification envelope: its parser, its canonical text, and its life as table columns.
 The event catalog (which payload fields an event type carries and how each is checked) is a
 parameter; every result holds for any catalog.
 */
module Envelopes {
  import opened Utf16
  import opened Wrappers
  import opened KeyOrder
  import opened CanonicalJson
  import opened CanonicalRoundTrip

  function Ascii(s: string): (t: Text)
    ensures |t| == |s|
    ensures forall i | 0 <= i < |s| && s[i] as int < 128 :: t[i] == s[i] as int
  {
    seq(|s|, i requires 0 <= i < |s| => if s[i] as int < 128 then s[i] as int else 0)
  }

  // ----- Field checks -----

  predicate IsHex(u: Unit) {
    IsDigit(u) || 0x61 <= u <= 0x66 || 0x41 <= u <= 0x46
  }

  function LowerUnit(u: Unit): Unit {
    if 0x41 <= u <= 0x5A then u + 0x20 else u
  }

  /** `value.toLowerCase()` on ASCII text. */
  function Lower(t: Text): (r: Text)
    ensures |r| == |t| && forall i | 0 <= i < |t| :: r[i] == LowerUnit(t[i])
  {
    seq(|t|, i requires 0 <= i < |t| => LowerUnit(t[i]))
  }

  predicate IsHyphenAt(i: nat) {
    i == 8 || i == 13 || i == 18 || i == 23
  }

  /** The UUID shape; `version` tells which version digits are allowed. */
  predicate IsUuid(t: Text, version: Unit -> bool) {
    && |t| == 36
    && (forall i | 0 <= i < 36 :: if IsHyphenAt(i) then t[i] == MINUS else IsHex(t[i]))
    && version(t[14])
    && (t[19] == 0x38 || t[19] == 0x39 || t[19] == 0x61 || t[19] == 0x62 || t[19] == 0x41 || t[19] == 0x42)
  }

  const AnyVersion: Unit -> bool := u => 0x31 <= u <= 0x38

  const Version7: Unit -> bool := u => u == 0x37

  function RequireUuid(v: Json, version: Unit -> bool): Option<Text> {
    if v.Str? && IsUuid(v.s, version) then Some(Lower(v.s)) else None
  }

  predicate IsBounded(t: Text, maximum: nat) {
    1 <= |t| <= maximum && forall i | 0 <= i < |t| :: t[i] > 31 && t[i] != 127
  }

  function RequireText(v: Json, test: Text -> bool): Option<Text> {
    if v.Str? && test(v.s) then Some(v.s) else None
  }

  function RequirePositiveInteger(v: Json): Option<nat> {
    if v.Num? && v.n.Integer? && 1 <= v.n.i <= MAX_SAFE_INTEGER then Some(v.n.i) else None
  }

  predicate IsLeaf(v: Json) {
    v.Null? || v.Bool? || v.Str? || v.Num?
  }

  /** How one payload field is checked and normalised. */
  datatype Rule =
    | AggregateId                       // a version 7 UUID equal to the aggregate id
    | OtherUuid                         // a version 7 UUID different from the aggregate id
    | Uuid                              // a version 7 UUID
    | PositiveInteger
    | Exactly(value: Json)              // a fixed literal
    | Checked(test: Text -> bool)       // text kept as it is: references, timestamps, enumerations

  datatype FieldRule = FieldRule(key: Text, optional: bool, rule: Rule)

  datatype EventShape = EventShape(aggregateType: Text, fields: seq<FieldRule>)

  type Catalog = map<Text, EventShape>

  /** Field keys of a shape differ and literals are leaves. */
  ghost predicate ValidShape(shape: EventShape) {
    && (forall i, j | 0 <= i < j < |shape.fields| :: shape.fields[i].key != shape.fields[j].key)
    && (forall i | 0 <= i < |shape.fields| && shape.fields[i].rule.Exactly? :: GoodLeaf(shape.fields[i].rule.value))
  }

  function Apply(rule: Rule, v: Json, aggregateId: Text): Option<Json> {
    match rule
    case AggregateId =>
      var id := RequireUuid(v, Version7);
      if id == Some(aggregateId) then Some(Str(aggregateId)) else None
    case OtherUuid =>
      var id := RequireUuid(v, Version7);
      if id.Some? && id.value != aggregateId then Some(Str(id.value)) else None
    case Uuid =>
      var id := RequireUuid(v, Version7);
      if id.Some? then Some(Str(id.value)) else None
    case PositiveInteger =>
      var n := RequirePositiveInteger(v);
      if n.Some? then Some(Num(Integer(n.value))) else None
    case Exactly(value) => if v == value then Some(value) else None
    case Checked(test) =>
      var text := RequireText(v, test);
      if text.Some? then Some(Str(text.value)) else None
  }

  function Get(fields: seq<Entry<Json>>, key: Text): (r: Option<Json>)
    ensures r.Some? ==> exists f | f in fields :: f.key == key && f.value == r.value
    ensures r.None? ==> forall f | f in fields :: f.key != key
  {
    if fields == [] then None
    else if fields[0].key == key then Some(fields[0].value)
    else Get(fields[1..], key)
  }

  /** The payload, rebuilt in catalog order from the fields of an exact object. */
  function ParseFields(rules: seq<FieldRule>, fields: seq<Entry<Json>>, aggregateId: Text): Option<seq<Entry<Json>>> {
    if rules == [] then Some([])
    else
      var rest := ParseFields(rules[1..], fields, aggregateId);
      var value := Get(fields, rules[0].key);
      if value.None? then
        if rules[0].optional then rest else None
      else
        var checked := Apply(rules[0].rule, value.value, aggregateId);
        if checked.None? || rest.None? then None
        else Some([Entry(rules[0].key, checked.value)] + rest.value)
  }

  predicate KnownKey(rules: seq<FieldRule>, key: Text) {
    exists i | 0 <= i < |rules| :: rules[i].key == key
  }

  function ParsePayload(shape: EventShape, payload: Json, aggregateId: Text): Option<seq<Entry<Json>>> {
    if !payload.Obj? || exists f | f in payload.fields :: !KnownKey(shape.fields, f.key) then None
    else ParseFields(shape.fields, payload.fields, aggregateId)
  }

  // ----- The envelope -----

  datatype Envelope = Envelope(
    eventId: Text,
    eventType: Text,
    tenantId: Text,
    workspaceId: Text,
    spaceId: Text,
    aggregateId: Text,
    aggregateVersion: nat,
    causationCommandId: Text,
    payload: seq<Entry<Json>>,
    requestId: Text,
    traceparent: Text,
    tracestate: Option<Text>)

  /**
   The untrusted input, key by key: an exact object holds these fields and no others, and every
   field may hold any JSON value.
   */
  datatype RawEnvelope = RawEnvelope(
    eventId: Json,
    eventType: Json,
    eventSchemaVersion: Json,
    payloadSchemaVersion: Json,
    tenantId: Json,
    workspaceId: Json,
    spaceId: Json,
    aggregateType: Json,
    aggregateId: Json,
    aggregateVersion: Json,
    causationCommandId: Json,
    payload: Json,
    requestId: Json,
    traceparent: Json,
    tracestate: Option<Json>)

  const EVENT_ID := Ascii("eventId")
  const EVENT_TYPE := Ascii("eventType")
  const EVENT_SCHEMA_VERSION := Ascii("eventSchemaVersion")
  const PAYLOAD_SCHEMA_VERSION := Ascii("payloadSchemaVersion")
  const TENANT_ID := Ascii("tenantId")
  const WORKSPACE_ID := Ascii("workspaceId")
  const SPACE_ID := Ascii("spaceId")
  const AGGREGATE_TYPE := Ascii("aggregateType")
  const AGGREGATE_ID := Ascii("aggregateId")
  const AGGREGATE_VERSION := Ascii("aggregateVersion")
  const CAUSATION_COMMAND_ID := Ascii("causationCommandId")
  const PAYLOAD := Ascii("payload")
  const REQUEST_ID := Ascii("requestId")
  const TRACEPARENT := Ascii("traceparent")
  const TRACESTATE := Ascii("tracestate")

  const ONE: Json := Num(Integer(1))

  predicate IsRequestId(t: Text) { IsBounded(t, 200) }

  predicate IsTracestate(t: Text) { IsBounded(t, 512) }

  predicate IsLowerHex(u: Unit) {
    IsDigit(u) || 0x61 <= u <= 0x66
  }

  /** `00-<32 hex>-<16 hex>-<2 hex>`, lower case, flags without the reserved form, neither id all zero. */
  predicate IsTraceparent(t: Text) {
    && |t| == 55
    && t[..3] == [ZERO, ZERO, MINUS]
    && (forall i | 3 <= i < 35 :: IsLowerHex(t[i]))
    && t[35] == MINUS
    && (forall i | 36 <= i < 52 :: IsLowerHex(t[i]))
    && t[52] == MINUS && IsLowerHex(t[53]) && IsLowerHex(t[54])
    && (exists i | 3 <= i < 35 :: t[i] != ZERO)
    && (exists i | 36 <= i < 52 :: t[i] != ZERO)
  }

  /** `parseDomainNotificationEnvelope`; `None` stands for the thrown validation error. */
  function ParseEnvelope(catalog: Catalog, raw: RawEnvelope): Option<Envelope> {
    if !raw.eventType.Str? || raw.eventType.s !in catalog then None else
    var eventType := raw.eventType.s;
    var shape := catalog[eventType];
    var eventId, aggregateId := RequireUuid(raw.eventId, Version7), RequireUuid(raw.aggregateId, Version7);
    var tenantId, workspaceId, spaceId := RequireUuid(raw.tenantId, AnyVersion), RequireUuid(raw.workspaceId, AnyVersion), RequireUuid(raw.spaceId, AnyVersion);
    var aggregateVersion := RequirePositiveInteger(raw.aggregateVersion);
    var causationCommandId := RequireUuid(raw.causationCommandId, Version7);
    var requestId, traceparent := RequireText(raw.requestId, IsRequestId), RequireText(raw.traceparent, IsTraceparent);
    var tracestate := if raw.tracestate.None? then Some(None) else
                      var text := RequireText(raw.tracestate.value, IsTracestate);
                      if text.None? then None else Some(text);
    if raw.eventSchemaVersion != ONE || raw.payloadSchemaVersion != ONE || raw.aggregateType != Str(shape.aggregateType) then None
    else if eventId.None? || aggregateId.None? || tenantId.None? || workspaceId.None? || spaceId.None? then None
    else if aggregateVersion.None? || causationCommandId.None? || requestId.None? || traceparent.None? || tracestate.None? then None
    else
      var payload := ParsePayload(shape, raw.payload, aggregateId.value);
      if payload.None? then None else
      Some(Envelope(eventId.value, eventType, tenantId.value, workspaceId.value, spaceId.value, aggregateId.value,
                    aggregateVersion.value, causationCommandId.value, payload.value, requestId.value,
                    traceparent.value, tracestate.value))
  }

  /** A parsed envelope offered to the parser again. */
  function Raw(catalog: Catalog, e: Envelope): RawEnvelope
    requires e.eventType in catalog
  {
    RawEnvelope(Str(e.eventId), Str(e.eventType), ONE, ONE, Str(e.tenantId), Str(e.workspaceId), Str(e.spaceId),
                Str(catalog[e.eventType].aggregateType), Str(e.aggregateId), Num(Integer(e.aggregateVersion)),
                Str(e.causationCommandId), Obj(e.payload), Str(e.requestId), Str(e.traceparent),
                if e.tracestate.None? then None else Some(Str(e.tracestate.value)))
  }

  /** The envelope as the JSON object that is serialized. */
  function Document(catalog: Catalog, e: Envelope): Json
    requires e.eventType in catalog
  {
    Obj([Entry(EVENT_ID, Str(e.eventId)), Entry(EVENT_TYPE, Str(e.eventType)),
         Entry(EVENT_SCHEMA_VERSION, ONE), Entry(PAYLOAD_SCHEMA_VERSION, ONE),
         Entry(TENANT_ID, Str(e.tenantId)), Entry(WORKSPACE_ID, Str(e.workspaceId)), Entry(SPACE_ID, Str(e.spaceId)),
         Entry(AGGREGATE_TYPE, Str(catalog[e.eventType].aggregateType)), Entry(AGGREGATE_ID, Str(e.aggregateId)),
         Entry(AGGREGATE_VERSION, Num(Integer(e.aggregateVersion))),
         Entry(CAUSATION_COMMAND_ID, Str(e.causationCommandId)), Entry(PAYLOAD, Obj(e.payload)),
         Entry(REQUEST_ID, Str(e.requestId)), Entry(TRACEPARENT, Str(e.traceparent))]
        + if e.tracestate.None? then [] else [Entry(TRACESTATE, Str(e.tracestate.value))])
  }

  /** `serializeDomainNotificationEnvelope`: parse, then print canonically. */
  function SerializeEnvelope(catalog: Catalog, raw: RawEnvelope): Option<Text> {
    var e := ParseEnvelope(catalog, raw);
    if e.None? then None else Serialize(Document(catalog, e.value))
  }

  // ----- Parsing depends only on the value, and repeating it changes nothing -----

  lemma GetMember(fields: seq<Entry<Json>>, f: Entry<Json>)
    requires DistinctKeys(fields) && f in fields
    ensures Get(fields, f.key) == Some(f.value)
  {
    var g :| g in fields && g.key == f.key && Get(fields, f.key) == Some(g.value);
    var i :| 0 <= i < |fields| && fields[i] == f;
    var j :| 0 <= j < |fields| && fields[j] == g;
  }

  /** No field rule tells `v` and `w` apart. */
  ghost predicate ParsesAlike(v: Json, w: Json) {
    forall rule: Rule, aggregateId | rule.Exactly? ==> IsLeaf(rule.value) ::
      Apply(rule, v, aggregateId) == Apply(rule, w, aggregateId)
  }

  lemma SameParsesAlike(v: Json, w: Json)
    requires Same(v, w)
    ensures ParsesAlike(v, w)
  {
    assert v == w || (v.Arr? && w.Arr?) || (v.Obj? && w.Obj?);
  }

  /** Looking up `key` finds values no rule tells apart, or nothing on either side. */
  ghost predicate AgreeAt(fs: seq<Entry<Json>>, gs: seq<Entry<Json>>, key: Text) {
    && (Get(fs, key).Some? <==> Get(gs, key).Some?)
    && (Get(fs, key).Some? ==> ParsesAlike(Get(fs, key).value, Get(gs, key).value))
  }

  ghost predicate SameMembers(fs: seq<Entry<Json>>, gs: seq<Entry<Json>>) {
    && (forall f | f in fs :: exists g | g in gs :: f.key == g.key && ParsesAlike(f.value, g.value))
    && Keys(fs) == Keys(gs)
  }

  lemma SameObjectMember(fs: seq<Entry<Json>>, gs: seq<Entry<Json>>, f: Entry<Json>) returns (g: Entry<Json>)
    requires Same(Obj(fs), Obj(gs)) && f in fs
    ensures g in gs && f.key == g.key && Same(f.value, g.value)
  {
    g :| g in gs && f.key == g.key && Same(f.value, g.value);
  }

  lemma SameObjectsHaveSameMembers(fs: seq<Entry<Json>>, gs: seq<Entry<Json>>)
    requires Same(Obj(fs), Obj(gs))
    ensures SameMembers(fs, gs)
  {
    forall f | f in fs
      ensures exists g | g in gs :: f.key == g.key && ParsesAlike(f.value, g.value)
    {
      var g := SameObjectMember(fs, gs, f);
      SameParsesAlike(f.value, g.value);
    }
  }

  lemma GetSame(fs: seq<Entry<Json>>, gs: seq<Entry<Json>>, key: Text)
    requires DistinctKeys(gs) && SameMembers(fs, gs)
    ensures AgreeAt(fs, gs, key)
  {
    KeyHasMember(fs, key);
    KeyHasMember(gs, key);
    if Get(fs, key).Some? {
      var f :| f in fs && f.key == key && f.value == Get(fs, key).value;
      var g :| g in gs && f.key == g.key && ParsesAlike(f.value, g.value);
      GetMember(gs, g);
    }
  }

  lemma {:induction false} ParseFieldsSame(rules: seq<FieldRule>, fs: seq<Entry<Json>>, gs: seq<Entry<Json>>, aggregateId: Text)
    requires forall i | 0 <= i < |rules| && rules[i].rule.Exactly? :: IsLeaf(rules[i].rule.value)
    requires DistinctKeys(gs) && SameMembers(fs, gs)
    ensures ParseFields(rules, fs, aggregateId) == ParseFields(rules, gs, aggregateId)
  {
    if rules != [] {
      var others := rules[1..];
      assert forall i | 0 <= i < |others| :: others[i] == rules[i + 1];
      ParseFieldsSame(others, fs, gs, aggregateId);
      GetSame(fs, gs, rules[0].key);
    }
  }

  lemma LowerUuid(t: Text, version: Unit -> bool)
    requires IsUuid(t, version) && (version == Version7 || version == AnyVersion)
    ensures IsUuid(Lower(t), version) && Lower(Lower(t)) == Lower(t)
  {
    forall i | 0 <= i < 36
      ensures if IsHyphenAt(i) then Lower(t)[i] == MINUS else IsHex(Lower(t)[i])
      ensures Lower(Lower(t))[i] == Lower(t)[i]
    {
      assert if IsHyphenAt(i) then t[i] == MINUS else IsHex(t[i]);
    }
  }

  lemma RequireUuidTwice(v: Json, version: Unit -> bool)
    requires version == Version7 || version == AnyVersion
    requires RequireUuid(v, version).Some?
    ensures RequireUuid(Str(RequireUuid(v, version).value), version) == RequireUuid(v, version)
  {
    LowerUuid(v.s, version);
  }

  lemma ApplyTwice(rule: Rule, v: Json, aggregateId: Text)
    requires Apply(rule, v, aggregateId).Some?
    ensures Apply(rule, Apply(rule, v, aggregateId).value, aggregateId) == Apply(rule, v, aggregateId)
  {
    if rule.AggregateId? || rule.OtherUuid? || rule.Uuid? {
      RequireUuidTwice(v, Version7);
    }
  }

  lemma {:induction false} ParsedKeysKnown(rules: seq<FieldRule>, fields: seq<Entry<Json>>, aggregateId: Text)
    requires ParseFields(rules, fields, aggregateId).Some?
    ensures forall f | f in ParseFields(rules, fields, aggregateId).value :: KnownKey(rules, f.key)
  {
    if rules != [] {
      ParsedKeysKnown(rules[1..], fields, aggregateId);
      assert rules[0] in rules && forall r | r in rules[1..] :: r in rules;
      forall f | f in ParseFields(rules, fields, aggregateId).value
        ensures KnownKey(rules, f.key)
      {
        if f.key != rules[0].key {
          assert f in ParseFields(rules[1..], fields, aggregateId).value;
          assert KnownKey(rules[1..], f.key);
        }
      }
    }
  }

  ghost predicate DistinctRules(rules: seq<FieldRule>) {
    forall i, j | 0 <= i < j < |rules| :: rules[i].key != rules[j].key
  }

  lemma {:induction false} GetSkips(before: seq<Entry<Json>>, after: seq<Entry<Json>>, key: Text)
    requires forall f | f in before :: f.key != key
    ensures Get(before + after, key) == Get(after, key)
  {
    if before == [] {
      assert before + after == after;
    } else {
      assert before[0] in before && forall f | f in before[1..] :: f in before;
      assert (before + after)[1..] == before[1..] + after;
      GetSkips(before[1..], after, key);
    }
  }

  /** One step of the parse over rules whose first field is absent, or present with this outcome. */
  lemma ParseFieldsStep(rules: seq<FieldRule>, fields: seq<Entry<Json>>, aggregateId: Text)
    requires rules != []
    ensures var found, rest := Get(fields, rules[0].key), ParseFields(rules[1..], fields, aggregateId);
            ParseFields(rules, fields, aggregateId) ==
            if found.None? then (if rules[0].optional then rest else None)
            else if rest.None? || Apply(rules[0].rule, found.value, aggregateId).None? then None
            else Some([Entry(rules[0].key, Apply(rules[0].rule, found.value, aggregateId).value)] + rest.value)
  {
  }

  lemma KnownKeySplit(rules: seq<FieldRule>, key: Text)
    requires rules != []
    ensures KnownKey(rules, key) <==> key == rules[0].key || KnownKey(rules[1..], key)
    ensures DistinctRules(rules) ==> DistinctRules(rules[1..]) && !KnownKey(rules[1..], rules[0].key)
  {
    var others := rules[1..];
    assert forall i | 0 <= i < |others| :: others[i] == rules[i + 1];
    if i :| 0 <= i < |rules| && rules[i].key == key {
      assert i > 0 ==> others[i - 1].key == key;
    }
  }

  /** Parsing the fields parsed so far finds each of them again, unchanged and in place. */
  lemma {:induction false} ParseFieldsTwice(rules: seq<FieldRule>, fields: seq<Entry<Json>>, before: seq<Entry<Json>>, aggregateId: Text)
    requires DistinctRules(rules) && ParseFields(rules, fields, aggregateId).Some?
    requires forall f | f in before :: !KnownKey(rules, f.key)
    ensures var out := ParseFields(rules, fields, aggregateId).value;
            ParseFields(rules, before + out, aggregateId) == Some(out)
  {
    if rules != [] {
      var rule, others := rules[0], rules[1..];
      KnownKeySplit(rules, rule.key);
      ParseFieldsStep(rules, fields, aggregateId);
      var rest := ParseFields(others, fields, aggregateId).value;
      ParsedKeysKnown(others, fields, aggregateId);
      forall f | f in before
        ensures f.key != rule.key && !KnownKey(others, f.key)
      {
        KnownKeySplit(rules, f.key);
      }
      var found := Get(fields, rule.key);
      if found.None? {
        GetSkips(before + rest, [], rule.key);
        assert before + rest + [] == before + rest;
        ParseFieldsTwice(others, fields, before, aggregateId);
        ParseFieldsStep(rules, before + rest, aggregateId);
      } else {
        var entry := Entry(rule.key, Apply(rule.rule, found.value, aggregateId).value);
        ApplyTwice(rule.rule, found.value, aggregateId);
        GetSkips(before, [entry] + rest, rule.key);
        assert before + ([entry] + rest) == (before + [entry]) + rest;
        ParseFieldsTwice(others, fields, before + [entry], aggregateId);
        ParseFieldsStep(rules, before + ([entry] + rest), aggregateId);
      }
    }
  }

  ghost predicate GoodLeaf(v: Json) {
    IsLeaf(v) && Accepted(v) && Proper(v)
  }

  lemma ApplyGivesLeaf(rule: Rule, v: Json, aggregateId: Text)
    requires rule.Exactly? ==> GoodLeaf(rule.value)
    requires Apply(rule, v, aggregateId).Some?
    ensures GoodLeaf(Apply(rule, v, aggregateId).value)
  {
  }

  lemma {:induction false} ParsedFieldsAreLeaves(rules: seq<FieldRule>, fields: seq<Entry<Json>>, aggregateId: Text)
    requires DistinctRules(rules) && ParseFields(rules, fields, aggregateId).Some?
    requires forall i | 0 <= i < |rules| && rules[i].rule.Exactly? :: GoodLeaf(rules[i].rule.value)
    ensures var out := ParseFields(rules, fields, aggregateId).value;
            DistinctKeys(out) && forall i | 0 <= i < |out| :: GoodLeaf(out[i].value)
  {
    if rules != [] {
      var others := rules[1..];
      assert forall i | 0 <= i < |others| :: others[i] == rules[i + 1];
      KnownKeySplit(rules, rules[0].key);
      ParseFieldsStep(rules, fields, aggregateId);
      ParsedFieldsAreLeaves(others, fields, aggregateId);
      ParsedKeysKnown(others, fields, aggregateId);
      var found := Get(fields, rules[0].key);
      if found.Some? {
        ApplyGivesLeaf(rules[0].rule, found.value, aggregateId);
      }
    }
  }

  ghost predicate ValidCatalog(catalog: Catalog) {
    forall t | t in catalog :: ValidShape(catalog[t])
  }

  lemma ParsedPayload(catalog: Catalog, raw: RawEnvelope, e: Envelope)
    requires ValidCatalog(catalog) && ParseEnvelope(catalog, raw) == Some(e)
    ensures e.eventType in catalog
    ensures DistinctKeys(e.payload) && forall f | f in e.payload :: GoodLeaf(f.value)
    ensures ParsePayload(catalog[e.eventType], Obj(e.payload), e.aggregateId) == Some(e.payload)
  {
    var shape := catalog[e.eventType];
    ParsedFieldsAreLeaves(shape.fields, raw.payload.fields, e.aggregateId);
    ParsedKeysKnown(shape.fields, raw.payload.fields, e.aggregateId);
    ParseFieldsTwice(shape.fields, raw.payload.fields, [], e.aggregateId);
    assert [] + e.payload == e.payload;
  }

  lemma PayloadReparses(shape: EventShape, fs: seq<Entry<Json>>, stored: seq<Entry<Json>>, aggregateId: Text)
    requires ValidShape(shape) && DistinctKeys(stored) && SameMembers(fs, stored)
    ensures ParsePayload(shape, Obj(stored), aggregateId) == ParsePayload(shape, Obj(fs), aggregateId)
  {
    ParseFieldsSame(shape.fields, fs, stored, aggregateId);
    SharedKeyKnown(shape.fields, fs, stored);
    SharedKeyKnown(shape.fields, stored, fs);
  }

  lemma SharedKeyKnown(rules: seq<FieldRule>, fs: seq<Entry<Json>>, gs: seq<Entry<Json>>)
    requires Keys(fs) == Keys(gs)
    ensures (exists f | f in fs :: !KnownKey(rules, f.key)) ==> exists g | g in gs :: !KnownKey(rules, g.key)
  {
    if f :| f in fs && !KnownKey(rules, f.key) {
      KeyHasMember(fs, f.key);
      KeyHasMember(gs, f.key);
    }
  }

  /** A payload equal to a parsed one up to member order parses to that very payload. */
  lemma SamePayloadParses(catalog: Catalog, raw: RawEnvelope, e: Envelope, stored: Json)
    requires ValidCatalog(catalog) && ParseEnvelope(catalog, raw) == Some(e)
    requires Proper(stored) && Same(Obj(e.payload), stored)
    ensures e.eventType in catalog
    ensures ParsePayload(catalog[e.eventType], stored, e.aggregateId) == Some(e.payload)
  {
    ParsedPayload(catalog, raw, e);
    SameObjectsHaveSameMembers(e.payload, stored.fields);
    PayloadReparses(catalog[e.eventType], e.payload, stored.fields, e.aggregateId);
  }

  // ----- Columns -----

  /** The immutable columns of an outbox row that carry the envelope. */
  datatype Columns = Columns(
    id: Text,
    tenantId: Text,
    workspaceId: Text,
    spaceId: Text,
    eventType: Text,
    eventSchemaVersion: int,
    payloadSchemaVersion: int,
    aggregateType: Text,
    aggregateId: Text,
    aggregateVersion: nat,
    causationCommandId: Text,
    payload: Json,
    requestId: Text,
    traceparent: Text,
    tracestate: Option<Text>)

  /** The columns `insertOrReplay` writes; `stored` is what the jsonb column makes of the payload text. */
  function ColumnsFor(catalog: Catalog, e: Envelope, stored: Json): Columns
    requires e.eventType in catalog
  {
    Columns(e.eventId, e.tenantId, e.workspaceId, e.spaceId, e.eventType, 1, 1, catalog[e.eventType].aggregateType,
            e.aggregateId, e.aggregateVersion, e.causationCommandId, stored, e.requestId, e.traceparent, e.tracestate)
  }

  /** `envelopeFromRow`: the columns offered to the parser. */
  function RawFromColumns(c: Columns): RawEnvelope {
    RawEnvelope(Str(c.id), Str(c.eventType), Num(Integer(c.eventSchemaVersion)), Num(Integer(c.payloadSchemaVersion)),
                Str(c.tenantId), Str(c.workspaceId), Str(c.spaceId), Str(c.aggregateType), Str(c.aggregateId),
                Num(Integer(c.aggregateVersion)), Str(c.causationCommandId), c.payload, Str(c.requestId),
                Str(c.traceparent), if c.tracestate.None? then None else Some(Str(c.tracestate.value)))
  }

  /**
   An envelope written to columns reads back as itself, however the payload column reordered its
   members; in particular parsing a parsed envelope again changes nothing.
   */
  lemma ColumnsRoundTrip(catalog: Catalog, raw: RawEnvelope, e: Envelope, stored: Json)
    requires ValidCatalog(catalog) && ParseEnvelope(catalog, raw) == Some(e)
    requires Proper(stored) && Same(Obj(e.payload), stored)
    ensures ParseEnvelope(catalog, RawFromColumns(ColumnsFor(catalog, e, stored))) == Some(e)
  {
    SamePayloadParses(catalog, raw, e, stored);
    RequireUuidTwice(raw.eventId, Version7);
    RequireUuidTwice(raw.aggregateId, Version7);
    RequireUuidTwice(raw.tenantId, AnyVersion);
    RequireUuidTwice(raw.workspaceId, AnyVersion);
    RequireUuidTwice(raw.spaceId, AnyVersion);
    RequireUuidTwice(raw.causationCommandId, Version7);
  }

  // ----- The text identifies the envelope -----

  /** Length and first letter: enough to tell the fifteen envelope keys apart. */
  function Signature(key: Text): (nat, int) {
    (|key|, if key == [] then -1 else key[0] as int)
  }

  lemma DocumentKeysDistinct(catalog: Catalog, e: Envelope)
    requires e.eventType in catalog
    ensures DistinctKeys(Document(catalog, e).fields)
  {
    DocumentSignatures(catalog, e);
  }

  lemma DocumentValues(catalog: Catalog, e: Envelope)
    requires e.eventType in catalog && e.aggregateVersion <= MAX_SAFE_INTEGER
    ensures forall i | 0 <= i < |Document(catalog, e).fields| ::
              Document(catalog, e).fields[i].value == Obj(e.payload) || GoodLeaf(Document(catalog, e).fields[i].value)
  {
  }

  ghost predicate Printable(v: Json) {
    Proper(v) && Accepted(v) && Dense(v)
  }

  lemma ObjectIsPrintable(fields: seq<Entry<Json>>)
    requires DistinctKeys(fields) && forall i | 0 <= i < |fields| :: Printable(fields[i].value)
    ensures Printable(Obj(fields))
  {
  }

  lemma LeafIsPrintable(v: Json)
    requires GoodLeaf(v)
    ensures Printable(v)
  {
  }

  lemma DocumentIsPrintable(catalog: Catalog, raw: RawEnvelope, e: Envelope)
    requires ValidCatalog(catalog) && ParseEnvelope(catalog, raw) == Some(e)
    ensures e.eventType in catalog && Printable(Document(catalog, e)) && Printable(Obj(e.payload))
  {
    ParsedPayload(catalog, raw, e);
    DocumentKeysDistinct(catalog, e);
    forall i | 0 <= i < |e.payload|
      ensures Printable(e.payload[i].value)
    {
      assert e.payload[i] in e.payload;
      LeafIsPrintable(e.payload[i].value);
    }
    ObjectIsPrintable(e.payload);
    DocumentValues(catalog, e);
    var fields := Document(catalog, e).fields;
    forall i | 0 <= i < |fields|
      ensures Printable(fields[i].value)
    {
      if fields[i].value != Obj(e.payload) {
        LeafIsPrintable(fields[i].value);
      }
    }
    ObjectIsPrintable(fields);
  }

  lemma SameValueAt(fs: seq<Entry<Json>>, gs: seq<Entry<Json>>, i: nat)
    requires Same(Obj(fs), Obj(gs)) && DistinctKeys(gs) && i < |fs| && i < |gs| && fs[i].key == gs[i].key
    ensures Same(fs[i].value, gs[i].value)
  {
    var g := SameObjectMember(fs, gs, fs[i]);
    GetMember(gs, g);
    GetMember(gs, gs[i]);
  }

  const SIGNATURES: seq<(nat, int)> :=
    [(7, 0x65), (9, 0x65), (18, 0x65), (20, 0x70), (8, 0x74), (11, 0x77), (7, 0x73), (13, 0x61),
     (11, 0x61), (16, 0x61), (18, 0x63), (7, 0x70), (9, 0x72), (11, 0x74), (10, 0x74)]

  lemma DocumentSignatures(catalog: Catalog, e: Envelope)
    requires e.eventType in catalog
    ensures var fields := Document(catalog, e).fields;
            && |fields| == (if e.tracestate.Some? then 15 else 14)
            && (forall i | 0 <= i < |fields| :: Signature(fields[i].key) == SIGNATURES[i])
            && (e.tracestate.Some? ==> fields[14].key == TRACESTATE)
  {
    var fields := Document(catalog, e).fields;
    var signatures := [(7, 0x65), (9, 0x65), (18, 0x65), (20, 0x70), (8, 0x74), (11, 0x77), (7, 0x73), (13, 0x61),
                       (11, 0x61), (16, 0x61), (18, 0x63), (7, 0x70), (9, 0x72), (11, 0x74), (10, 0x74)];
    assert signatures == SIGNATURES;
    assert forall i | 0 <= i < |fields| :: Signature(fields[i].key) == signatures[i];
  }

  lemma AbsentKey(fields: seq<Entry<Json>>, key: Text)
    requires |fields| <= 14 && Signature(key) == (10, 0x74)
    requires forall i | 0 <= i < |fields| :: Signature(fields[i].key) == SIGNATURES[i]
    ensures key !in Keys(fields)
  {
    KeyHasMember(fields, key);
  }

  lemma TracestateKey(catalog: Catalog, e: Envelope)
    requires e.eventType in catalog
    ensures TRACESTATE in Keys(Document(catalog, e).fields) <==> e.tracestate.Some?
  {
    var fields := Document(catalog, e).fields;
    DocumentSignatures(catalog, e);
    if e.tracestate.Some? {
      HasKey(fields, fields[14]);
    } else {
      assert Signature(TRACESTATE) == (10, 0x74);
      AbsentKey(fields, TRACESTATE);
    }
  }

  lemma HasKey(fields: seq<Entry<Json>>, f: Entry<Json>)
    requires f in fields
    ensures f.key in Keys(fields)
  {
    KeyHasMember(fields, f.key);
  }

  /** Position by position: the same key, and equal values where the values are leaves. */
  ghost predicate SameLeaves(fs: seq<Entry<Json>>, gs: seq<Entry<Json>>) {
    && |fs| == |gs|
    && forall i | 0 <= i < |fs| :: fs[i].key == gs[i].key && (IsLeaf(fs[i].value) ==> fs[i].value == gs[i].value)
  }

  lemma SameObjectsSameLeaves(fs: seq<Entry<Json>>, gs: seq<Entry<Json>>)
    requires Same(Obj(fs), Obj(gs)) && DistinctKeys(gs)
    requires |fs| == |gs| && forall i | 0 <= i < |fs| :: fs[i].key == gs[i].key
    ensures SameLeaves(fs, gs)
  {
    forall i | 0 <= i < |fs|
      ensures IsLeaf(fs[i].value) ==> fs[i].value == gs[i].value
    {
      SameValueAt(fs, gs, i);
    }
  }

  lemma SameLeavesSameFields(catalog: Catalog, e: Envelope, f: Envelope)
    requires e.eventType in catalog && f.eventType in catalog
    requires SameLeaves(Document(catalog, e).fields, Document(catalog, f).fields)
    ensures e.(payload := f.payload) == f
  {
    var fs, gs := Document(catalog, e).fields, Document(catalog, f).fields;
    assert fs[0].value == gs[0].value && fs[1].value == gs[1].value && fs[4].value == gs[4].value;
    assert fs[5].value == gs[5].value && fs[6].value == gs[6].value && fs[8].value == gs[8].value;
    assert fs[9].value == gs[9].value && fs[10].value == gs[10].value;
    assert fs[12].value == gs[12].value && fs[13].value == gs[13].value;
    assert e.tracestate.Some? ==> fs[14].value == gs[14].value;
  }

  lemma DocumentKeysAlign(catalog: Catalog, e: Envelope, f: Envelope)
    requires e.eventType in catalog && f.eventType in catalog
    requires e.tracestate.Some? <==> f.tracestate.Some?
    ensures var fs, gs := Document(catalog, e).fields, Document(catalog, f).fields;
            |fs| == |gs| && forall i | 0 <= i < |fs| :: fs[i].key == gs[i].key
  {
  }

  lemma SameKeySets(fs: seq<Entry<Json>>, gs: seq<Entry<Json>>)
    requires Same(Obj(fs), Obj(gs))
    ensures Keys(fs) == Keys(gs)
  {
  }

  lemma SameDocumentsSameFields(catalog: Catalog, e: Envelope, f: Envelope)
    requires e.eventType in catalog && f.eventType in catalog
    requires Same(Document(catalog, e), Document(catalog, f))
    ensures e.(payload := f.payload) == f && Same(Obj(e.payload), Obj(f.payload))
  {
    var fs, gs := Document(catalog, e).fields, Document(catalog, f).fields;
    SameKeySets(fs, gs);
    TracestateKey(catalog, e);
    TracestateKey(catalog, f);
    DocumentKeysDistinct(catalog, f);
    DocumentKeysAlign(catalog, e, f);
    SameObjectsSameLeaves(fs, gs);
    SameLeavesSameFields(catalog, e, f);
    SameValueAt(fs, gs, 11);
  }

  /** Equal canonical envelope texts mean equal envelopes: the text comparison on replay compares everything. */
  lemma EqualEnvelopeTexts(catalog: Catalog, raw: RawEnvelope, raw': RawEnvelope, e: Envelope, f: Envelope)
    requires ValidCatalog(catalog)
    requires ParseEnvelope(catalog, raw) == Some(e) && ParseEnvelope(catalog, raw') == Some(f)
    ensures SerializeEnvelope(catalog, raw).Some?
    ensures SerializeEnvelope(catalog, raw) == SerializeEnvelope(catalog, raw') <==> e == f
  {
    DocumentIsPrintable(catalog, raw, e);
    DocumentIsPrintable(catalog, raw', f);
    RoundTrip(Document(catalog, e));
    EqualTextsMeanSameValues(Document(catalog, e), Document(catalog, f));
    if Same(Document(catalog, e), Document(catalog, f)) {
      SameDocumentsSameFields(catalog, e, f);
      SamePayloadParses(catalog, raw, e, Obj(f.payload));
      ParsedPayload(catalog, raw', f);
    }
  }
}
