/**
 What a receiver makes of a sent message: reading the JSON text and parsing it as an envelope gives
 back the very envelope that was serialized.
 */
module SentText {
  import opened Utf16
  import opened Wrappers
  import opened KeyOrder
  import opened CanonicalJson
  import opened JsonReader
  import opened CanonicalRoundTrip
  import opened Envelopes
  import opened EnvelopeCodec

  const REQUIRED_KEYS: seq<Text> :=
    [EVENT_ID, EVENT_TYPE, EVENT_SCHEMA_VERSION, PAYLOAD_SCHEMA_VERSION, TENANT_ID, WORKSPACE_ID, SPACE_ID, AGGREGATE_TYPE,
     AGGREGATE_ID, AGGREGATE_VERSION, CAUSATION_COMMAND_ID, PAYLOAD, REQUEST_ID, TRACEPARENT]

  /** `requireExactObject`: all required keys, and besides at most the optional one. */
  predicate IsExact(required: seq<Text>, optional: Text, fields: seq<Entry<Json>>) {
    && (forall f | f in fields :: f.key in required || f.key == optional)
    && (forall key | key in required :: Get(fields, key).Some?)
  }

  /** The values of the required fields, in the order of their keys. */
  function ValuesOf(raw: RawEnvelope): (values: seq<Json>)
    ensures |values| == |REQUIRED_KEYS|
  {
    [raw.eventId, raw.eventType, raw.eventSchemaVersion, raw.payloadSchemaVersion, raw.tenantId, raw.workspaceId, raw.spaceId,
     raw.aggregateType, raw.aggregateId, raw.aggregateVersion, raw.causationCommandId, raw.payload, raw.requestId, raw.traceparent]
  }

  function WithValues(values: seq<Json>, tracestate: Option<Json>): RawEnvelope
    requires |values| == |REQUIRED_KEYS|
  {
    RawEnvelope(values[0], values[1], values[2], values[3], values[4], values[5], values[6], values[7], values[8], values[9],
                values[10], values[11], values[12], values[13], tracestate)
  }

  /** The input of the parser, taken from a JSON value. */
  function RawOf(v: Json): Option<RawEnvelope> {
    if !v.Obj? || !IsExact(REQUIRED_KEYS, TRACESTATE, v.fields) then None
    else
      Some(WithValues(seq(|REQUIRED_KEYS|, i requires 0 <= i < |REQUIRED_KEYS| =>
                            assert REQUIRED_KEYS[i] in REQUIRED_KEYS; Get(v.fields, REQUIRED_KEYS[i]).value),
                      Get(v.fields, TRACESTATE)))
  }

  /** Looking up a key in the key-ordered members gives the key-ordered value. */
  lemma GetNormal(fields: seq<Entry<Json>>, key: Text)
    requires DistinctKeys(fields)
    ensures Get(Sort(NormalFields(fields)), key) == if Get(fields, key).None? then None else Some(Normal(Get(fields, key).value))
  {
    var sorted := Sort(NormalFields(fields));
    NormalFieldsDistinct(fields);
    if Get(fields, key).Some? {
      var f :| f in fields && f.key == key && f.value == Get(fields, key).value;
      SortedMemberImage(fields, f);
      GetMember(sorted, Entry(key, Normal(f.value)));
    } else if Get(sorted, key).Some? {
      var e :| e in sorted && e.key == key;
      var f := SortedMemberOrigin(fields, e);
    }
  }

  /** Under each required key stands its value, and under the optional one its own, if any. */
  ghost predicate LooksUp(required: seq<Text>, optional: Text, fields: seq<Entry<Json>>, values: seq<Json>, other: Option<Json>) {
    && |values| == |required| && DistinctKeys(fields) && IsExact(required, optional, fields)
    && (forall i | 0 <= i < |required| :: Get(fields, required[i]) == Some(values[i]))
    && Get(fields, optional) == other
  }

  lemma ListedLooksUp(required: seq<Text>, optional: Text, fields: seq<Entry<Json>>, values: seq<Json>, other: Option<Json>)
    requires |values| == |required| && DistinctKeys(fields) && |fields| == |required| + (if other.Some? then 1 else 0)
    requires forall i | 0 <= i < |required| :: fields[i] == Entry(required[i], values[i])
    requires other.Some? ==> fields[|required|] == Entry(optional, other.value)
    requires other.None? ==> optional !in required
    ensures LooksUp(required, optional, fields, values, other)
  {
    forall i | 0 <= i < |required|
      ensures Get(fields, required[i]) == Some(values[i])
    {
      assert fields[i] in fields;
      GetMember(fields, fields[i]);
    }
    if other.Some? {
      assert fields[|required|] in fields;
      GetMember(fields, fields[|required|]);
    }
    forall f | f in fields
      ensures f.key in required || (other.Some? && f.key == optional)
    {
      var i :| 0 <= i < |fields| && fields[i] == f;
    }
  }

  function NormalAll(values: seq<Json>): (normal: seq<Json>)
    ensures |normal| == |values| && forall i | 0 <= i < |values| :: normal[i] == Normal(values[i])
  {
    seq(|values|, i requires 0 <= i < |values| => Normal(values[i]))
  }

  /** Key order does not change what is looked up but for the key order inside the values. */
  lemma SortedLooksUp(required: seq<Text>, optional: Text, fields: seq<Entry<Json>>, values: seq<Json>, other: Option<Json>)
    requires LooksUp(required, optional, fields, values, other)
    ensures LooksUp(required, optional, Sort(NormalFields(fields)), NormalAll(values),
                    if other.None? then None else Some(Normal(other.value)))
  {
    var sorted := Sort(NormalFields(fields));
    NormalFieldsDistinct(fields);
    forall key
      ensures Get(sorted, key) == if Get(fields, key).None? then None else Some(Normal(Get(fields, key).value))
    {
      GetNormal(fields, key);
    }
    forall f | f in sorted
      ensures f.key in required || f.key == optional
    {
      var origin := SortedMemberOrigin(fields, f);
    }
  }

  lemma DocumentLooksUp(catalog: Catalog, e: Envelope)
    requires e.eventType in catalog
    ensures LooksUp(REQUIRED_KEYS, TRACESTATE, Document(catalog, e).fields, ValuesOf(Raw(catalog, e)), Raw(catalog, e).tracestate)
  {
    var fields := Document(catalog, e).fields;
    DocumentKeysDistinct(catalog, e);
    DocumentShape(catalog, e);
    if e.tracestate.None? {
      TracestateKey(catalog, e);
      KeyHasMember(fields, TRACESTATE);
      forall i | 0 <= i < |REQUIRED_KEYS|
        ensures REQUIRED_KEYS[i] != TRACESTATE
      {
        assert fields[i] in fields;
      }
    }
    ListedLooksUp(REQUIRED_KEYS, TRACESTATE, fields, ValuesOf(Raw(catalog, e)), Raw(catalog, e).tracestate);
  }

  lemma DocumentShape(catalog: Catalog, e: Envelope)
    requires e.eventType in catalog
    ensures var fields, raw := Document(catalog, e).fields, Raw(catalog, e);
            && |fields| == |REQUIRED_KEYS| + (if e.tracestate.Some? then 1 else 0)
            && (forall i | 0 <= i < |REQUIRED_KEYS| :: fields[i] == Entry(REQUIRED_KEYS[i], ValuesOf(raw)[i]))
            && (e.tracestate.Some? ==> fields[|REQUIRED_KEYS|] == Entry(TRACESTATE, raw.tracestate.value))
  {
  }

  lemma RawLooksUp(fields: seq<Entry<Json>>, values: seq<Json>, other: Option<Json>)
    requires LooksUp(REQUIRED_KEYS, TRACESTATE, fields, values, other)
    ensures RawOf(Obj(fields)) == Some(WithValues(values, other))
  {
  }

  /** Of a parsed envelope's fields only the payload has members to move. */
  lemma NormalValues(raw: RawEnvelope)
    requires forall k | 0 <= k < |REQUIRED_KEYS| && k != 11 :: IsLeaf(ValuesOf(raw)[k])
    ensures WithValues(NormalAll(ValuesOf(raw)), raw.tracestate) == raw.(payload := Normal(raw.payload))
  {
    var values := NormalAll(ValuesOf(raw));
    assert forall k | 0 <= k < |REQUIRED_KEYS| && k != 11 :: values[k] == ValuesOf(raw)[k];
  }

  lemma RawLeaves(catalog: Catalog, e: Envelope)
    requires e.eventType in catalog
    ensures forall k | 0 <= k < |REQUIRED_KEYS| && k != 11 :: IsLeaf(ValuesOf(Raw(catalog, e))[k])
    ensures Raw(catalog, e).tracestate.Some? ==> Normal(Raw(catalog, e).tracestate.value) == Raw(catalog, e).tracestate.value
    ensures Raw(catalog, e).payload == Obj(e.payload)
  {
  }

  /** The document with its members in key order holds the envelope's values. */
  lemma NormalDocument(catalog: Catalog, e: Envelope)
    requires e.eventType in catalog
    ensures RawOf(Normal(Document(catalog, e))) == Some(Raw(catalog, e).(payload := Normal(Obj(e.payload))))
  {
    var raw := Raw(catalog, e);
    DocumentLooksUp(catalog, e);
    RawLeaves(catalog, e);
    NormalValues(raw);
    SortedRaw(Document(catalog, e), ValuesOf(raw), raw.tracestate);
  }

  lemma SortedRaw(v: Json, values: seq<Json>, tracestate: Option<Json>)
    requires v.Obj? && LooksUp(REQUIRED_KEYS, TRACESTATE, v.fields, values, tracestate)
    requires tracestate.Some? ==> Normal(tracestate.value) == tracestate.value
    ensures RawOf(Normal(v)) == Some(WithValues(NormalAll(values), tracestate))
  {
    SortedLooksUp(REQUIRED_KEYS, TRACESTATE, v.fields, values, tracestate);
    RawLooksUp(Sort(NormalFields(v.fields)), NormalAll(values), tracestate);
  }

  /**
   What is serialized for an accepted input can be read as JSON and parsed as an envelope, and that
   gives the envelope itself: the receiver gets every field where it belongs.
   */
  lemma SentTextParsesBack(catalog: Catalog, raw: RawEnvelope, e: Envelope)
    requires ValidCatalog(catalog) && ParseEnvelope(catalog, raw) == Some(e)
    ensures SerializeEnvelope(catalog, raw).Some?
    ensures var v := Parse(SerializeEnvelope(catalog, raw).value);
            v.Some? && RawOf(v.value).Some? && ParseEnvelope(catalog, RawOf(v.value).value) == Some(e)
  {
    DocumentIsPrintable(catalog, raw, e);
    RoundTrip(Document(catalog, e));
    NormalDocument(catalog, e);
    ParsedPayload(catalog, raw, e);
    LeavesInOrder(e.payload);
    SamePayloadParses(catalog, raw, e, Normal(Obj(e.payload)));
    ParsedAgain(catalog, raw, e);
    OtherPayload(catalog, e, Normal(Obj(e.payload)));
  }

  /** Putting members that hold leaves in key order leaves the same object. */
  lemma LeavesInOrder(fields: seq<Entry<Json>>)
    requires DistinctKeys(fields) && forall f | f in fields :: GoodLeaf(f.value)
    ensures Same(Obj(fields), Normal(Obj(fields))) && Proper(Normal(Obj(fields)))
  {
    var sorted := Sort(NormalFields(fields));
    NormalFieldsDistinct(fields);
    forall f | f in fields
      ensures f in sorted
    {
      SortedMemberImage(fields, f);
    }
    forall g | g in sorted
      ensures g in fields
    {
      var f := SortedMemberOrigin(fields, g);
    }
    forall key
      ensures key in Keys(fields) <==> key in Keys(sorted)
    {
      KeyHasMember(fields, key);
      KeyHasMember(sorted, key);
    }
  }

  lemma OtherPayload(catalog: Catalog, e: Envelope, payload: Json)
    requires e.eventType in catalog && ParseEnvelope(catalog, Raw(catalog, e)) == Some(e)
    requires ParsePayload(catalog[e.eventType], payload, e.aggregateId) == Some(e.payload)
    ensures ParseEnvelope(catalog, Raw(catalog, e).(payload := payload)) == Some(e)
  {
  }
}
