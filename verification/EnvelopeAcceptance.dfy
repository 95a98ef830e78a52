/**
 Which inputs the envelope parser accepts and what it makes of them, said field by field: nothing is
 added, dropped or exchanged, and nothing but the letter case of UUIDs is changed.
 */
module EnvelopeAcceptance {
  import opened Utf16
  import opened Wrappers
  import opened KeyOrder
  import opened CanonicalJson
  import opened Envelopes

  /** `t` is the UUID in `v` with its letters in lower case. */
  ghost predicate SpellsUuid(v: Json, t: Text, version: Unit -> bool) {
    && v.Str? && IsUuid(v.s, version) && |t| == |v.s|
    && forall i | 0 <= i < |t| :: if 0x41 <= v.s[i] <= 0x5A then t[i] == v.s[i] + 0x20 else t[i] == v.s[i]
  }

  /** A field with this rule may hold `v`, and `w` is kept of it. */
  ghost predicate Admits(rule: Rule, v: Json, w: Json, aggregateId: Text) {
    match rule
    case AggregateId => SpellsUuid(v, aggregateId, Version7) && w == Str(aggregateId)
    case OtherUuid => w.Str? && SpellsUuid(v, w.s, Version7) && w.s != aggregateId
    case Uuid => w.Str? && SpellsUuid(v, w.s, Version7)
    case PositiveInteger => w == v && v.Num? && v.n.Integer? && 0 < v.n.i <= MAX_SAFE_INTEGER
    case Exactly(value) => v == value == w
    case Checked(test) => w == v && v.Str? && test(v.s)
  }

  lemma UuidSpelled(v: Json, t: Text, version: Unit -> bool)
    ensures RequireUuid(v, version) == Some(t) <==> SpellsUuid(v, t, version)
  {
    if SpellsUuid(v, t, version) {
      assert t == Lower(v.s);
    }
  }

  lemma ApplyAdmits(rule: Rule, v: Json, w: Json, aggregateId: Text)
    ensures Apply(rule, v, aggregateId) == Some(w) <==> Admits(rule, v, w, aggregateId)
  {
    UuidSpelled(v, aggregateId, Version7);
    if w.Str? {
      UuidSpelled(v, w.s, Version7);
    }
  }

  ghost predicate Holds(fields: seq<Entry<Json>>, key: Text, v: Json) {
    Entry(key, v) in fields
  }

  /** The field is there and may hold what it holds, or it is optional and not there. */
  ghost predicate Passes(r: FieldRule, fields: seq<Entry<Json>>, aggregateId: Text) {
    || (exists v, w :: Holds(fields, r.key, v) && Admits(r.rule, v, w, aggregateId))
    || (r.optional && forall v :: !Holds(fields, r.key, v))
  }

  /** `w` is what a rule keeps of the field with this key. */
  ghost predicate Kept(rules: seq<FieldRule>, fields: seq<Entry<Json>>, aggregateId: Text, key: Text, w: Json) {
    exists r, v :: r in rules && r.key == key && Holds(fields, key, v) && Admits(r.rule, v, w, aggregateId)
  }

  lemma GetHolds(fields: seq<Entry<Json>>, key: Text)
    requires DistinctKeys(fields)
    ensures forall v :: Get(fields, key) == Some(v) <==> Holds(fields, key, v)
  {
    forall v | Holds(fields, key, v)
      ensures Get(fields, key) == Some(v)
    {
      GetMember(fields, Entry(key, v));
    }
    if Get(fields, key).Some? {
      var f :| f in fields && f.key == key && f.value == Get(fields, key).value;
      assert f == Entry(key, f.value);
    }
  }

  lemma FirstRulePasses(r: FieldRule, fields: seq<Entry<Json>>, aggregateId: Text)
    requires DistinctKeys(fields)
    ensures var v := Get(fields, r.key);
            Passes(r, fields, aggregateId) <==> if v.None? then r.optional else Apply(r.rule, v.value, aggregateId).Some?
  {
    GetHolds(fields, r.key);
    var v := Get(fields, r.key);
    if v.Some? {
      if Apply(r.rule, v.value, aggregateId).Some? {
        ApplyAdmits(r.rule, v.value, Apply(r.rule, v.value, aggregateId).value, aggregateId);
      }
      forall w | Admits(r.rule, v.value, w, aggregateId)
        ensures Apply(r.rule, v.value, aggregateId).Some?
      {
        ApplyAdmits(r.rule, v.value, w, aggregateId);
      }
    }
  }

  lemma {:induction false} FieldsAcceptedExactly(rules: seq<FieldRule>, fields: seq<Entry<Json>>, aggregateId: Text)
    requires DistinctKeys(fields)
    ensures ParseFields(rules, fields, aggregateId).Some? <==> forall r | r in rules :: Passes(r, fields, aggregateId)
  {
    if rules != [] {
      FieldsAcceptedExactly(rules[1..], fields, aggregateId);
      FirstRulePasses(rules[0], fields, aggregateId);
      assert forall r :: r in rules <==> r == rules[0] || r in rules[1..];
    }
  }

  lemma KeptByFirst(rules: seq<FieldRule>, fields: seq<Entry<Json>>, aggregateId: Text, key: Text, w: Json)
    requires rules != [] && DistinctKeys(fields)
    ensures Kept(rules, fields, aggregateId, key, w) <==>
            || Kept(rules[1..], fields, aggregateId, key, w)
            || (rules[0].key == key && Get(fields, key).Some? && Apply(rules[0].rule, Get(fields, key).value, aggregateId) == Some(w))
  {
    GetHolds(fields, key);
    assert forall r :: r in rules <==> r == rules[0] || r in rules[1..];
    if Get(fields, key).Some? {
      ApplyAdmits(rules[0].rule, Get(fields, key).value, w, aggregateId);
      assert Holds(fields, key, Get(fields, key).value);
    }
  }

  lemma {:induction false} FieldsKept(rules: seq<FieldRule>, fields: seq<Entry<Json>>, aggregateId: Text, key: Text, w: Json)
    requires DistinctKeys(fields) && ParseFields(rules, fields, aggregateId).Some?
    ensures Entry(key, w) in ParseFields(rules, fields, aggregateId).value <==> Kept(rules, fields, aggregateId, key, w)
  {
    if rules != [] {
      ParseFieldsStep(rules, fields, aggregateId);
      FieldsKept(rules[1..], fields, aggregateId, key, w);
      KeptByFirst(rules, fields, aggregateId, key, w);
    }
  }

  /**
   A payload is accepted exactly when it is an object with no unknown key whose fields all pass; and
   what is kept of it is what the rules keep of its fields, no more and no less.
   */
  lemma PayloadAcceptedExactly(shape: EventShape, payload: Json, aggregateId: Text)
    requires Proper(payload)
    ensures ParsePayload(shape, payload, aggregateId).Some? <==>
            && payload.Obj?
            && (forall f | f in payload.fields :: exists r | r in shape.fields :: r.key == f.key)
            && (forall r | r in shape.fields :: Passes(r, payload.fields, aggregateId))
    ensures ParsePayload(shape, payload, aggregateId).Some? ==>
              forall key, w :: Entry(key, w) in ParsePayload(shape, payload, aggregateId).value <==>
                Kept(shape.fields, payload.fields, aggregateId, key, w)
  {
    if payload.Obj? {
      FieldsAcceptedExactly(shape.fields, payload.fields, aggregateId);
      forall f | f in payload.fields
        ensures KnownKey(shape.fields, f.key) <==> exists r | r in shape.fields :: r.key == f.key
      {
        if r :| r in shape.fields && r.key == f.key {
          var i :| 0 <= i < |shape.fields| && shape.fields[i] == r;
          assert shape.fields[i].key == f.key;
        }
      }
      if ParsePayload(shape, payload, aggregateId).Some? {
        forall key, w
          ensures Entry(key, w) in ParsePayload(shape, payload, aggregateId).value <==>
                  Kept(shape.fields, payload.fields, aggregateId, key, w)
        {
          FieldsKept(shape.fields, payload.fields, aggregateId, key, w);
        }
      }
    }
  }

  /** The envelope says what the input says, field by field. */
  ghost predicate Says(catalog: Catalog, raw: RawEnvelope, e: Envelope) {
    && raw.eventType == Str(e.eventType) && e.eventType in catalog
    && raw.eventSchemaVersion == Num(Integer(1)) && raw.payloadSchemaVersion == Num(Integer(1))
    && raw.aggregateType == Str(catalog[e.eventType].aggregateType)
    && SpellsUuid(raw.eventId, e.eventId, Version7)
    && SpellsUuid(raw.tenantId, e.tenantId, AnyVersion)
    && SpellsUuid(raw.workspaceId, e.workspaceId, AnyVersion)
    && SpellsUuid(raw.spaceId, e.spaceId, AnyVersion)
    && SpellsUuid(raw.aggregateId, e.aggregateId, Version7)
    && SpellsUuid(raw.causationCommandId, e.causationCommandId, Version7)
    && raw.aggregateVersion == Num(Integer(e.aggregateVersion)) && 1 <= e.aggregateVersion <= MAX_SAFE_INTEGER
    && raw.requestId == Str(e.requestId) && IsBounded(e.requestId, 200)
    && raw.traceparent == Str(e.traceparent) && IsTraceparent(e.traceparent)
    && (raw.tracestate.None? <==> e.tracestate.None?)
    && (e.tracestate.Some? ==> raw.tracestate == Some(Str(e.tracestate.value)) && IsBounded(e.tracestate.value, 512))
    && ParsePayload(catalog[e.eventType], raw.payload, e.aggregateId) == Some(e.payload)
  }

  /** An input is accepted exactly when some envelope says the same, and that one is the result. */
  lemma AcceptedExactly(catalog: Catalog, raw: RawEnvelope, e: Envelope)
    ensures ParseEnvelope(catalog, raw) == Some(e) <==> Says(catalog, raw, e)
  {
    UuidSpelled(raw.eventId, e.eventId, Version7);
    UuidSpelled(raw.tenantId, e.tenantId, AnyVersion);
    UuidSpelled(raw.workspaceId, e.workspaceId, AnyVersion);
    UuidSpelled(raw.spaceId, e.spaceId, AnyVersion);
    UuidSpelled(raw.aggregateId, e.aggregateId, Version7);
    UuidSpelled(raw.causationCommandId, e.causationCommandId, Version7);
  }
}
