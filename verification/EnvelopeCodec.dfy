/**
 How the outbox sees envelopes: parse an input, write an envelope to columns, read columns back,
 print the canonical text. The outbox is proved for any codec that keeps the laws below, and
 `EnvelopeCodecIsLawful` shows that the code's own parser, columns and printer keep them.
 */
module EnvelopeCodec {
  import opened Utf16
  import opened Wrappers
  import opened CanonicalJson
  import opened CanonicalRoundTrip
  import opened Envelopes

  /** The columns of the unique index on which an insert detects that it is a replay. */
  datatype SemanticKey = SemanticKey(
    tenantId: Text, workspaceId: Text, spaceId: Text, causationCommandId: Text,
    eventType: Text, aggregateType: Text, aggregateId: Text, aggregateVersion: nat)

  datatype Codec = Codec(
    parse: RawEnvelope -> Option<Envelope>,
    write: (Envelope, Json) -> Columns,
    read: Columns -> Option<Envelope>,
    text: Envelope -> Option<Text>,
    key: Envelope -> SemanticKey)

  function KeyOfColumns(c: Columns): SemanticKey {
    SemanticKey(c.tenantId, c.workspaceId, c.spaceId, c.causationCommandId, c.eventType, c.aggregateType,
                c.aggregateId, c.aggregateVersion)
  }

  /** What a jsonb column may make of the payload's canonical text: the same value, members in any order. */
  ghost predicate IsStoredForm(e: Envelope, stored: Json) {
    Proper(stored) && Same(Obj(e.payload), stored)
  }

  ghost predicate IsParsed(codec: Codec, e: Envelope) {
    exists raw :: codec.parse(raw) == Some(e)
  }

  /** The columns hold the envelope: they read back as it, and its text exists. */
  ghost predicate Carries(codec: Codec, c: Columns, e: Envelope) {
    && codec.read(c) == Some(e) && codec.text(e).Some? && IsParsed(codec, e)
    && c.id == e.eventId && c.tenantId == e.tenantId && c.workspaceId == e.workspaceId && c.spaceId == e.spaceId
    && KeyOfColumns(c) == codec.key(e)
  }

  ghost predicate WritesAreRead(codec: Codec) {
    forall raw, stored | codec.parse(raw).Some? && IsStoredForm(codec.parse(raw).value, stored) ::
      Carries(codec, codec.write(codec.parse(raw).value, stored), codec.parse(raw).value)
  }

  ghost predicate TextsIdentify(codec: Codec) {
    forall e, f | IsParsed(codec, e) && IsParsed(codec, f) && codec.text(e) == codec.text(f) :: e == f
  }

  ghost predicate Lawful(codec: Codec) {
    WritesAreRead(codec) && TextsIdentify(codec)
  }

  // ----- The codec of the code -----

  /** `serializeDomainNotificationEnvelope` of an envelope in hand: parse it again, then print it. */
  function CanonicalText(catalog: Catalog, e: Envelope): Option<Text> {
    if e.eventType in catalog then SerializeEnvelope(catalog, Raw(catalog, e)) else None
  }

  function AggregateTypeOf(catalog: Catalog, e: Envelope): Text {
    if e.eventType in catalog then catalog[e.eventType].aggregateType else []
  }

  function WriteColumns(catalog: Catalog, e: Envelope, stored: Json): Columns {
    Columns(e.eventId, e.tenantId, e.workspaceId, e.spaceId, e.eventType, 1, 1, AggregateTypeOf(catalog, e),
            e.aggregateId, e.aggregateVersion, e.causationCommandId, stored, e.requestId, e.traceparent, e.tracestate)
  }

  function KeyOfEnvelope(catalog: Catalog, e: Envelope): SemanticKey {
    SemanticKey(e.tenantId, e.workspaceId, e.spaceId, e.causationCommandId, e.eventType, AggregateTypeOf(catalog, e),
                e.aggregateId, e.aggregateVersion)
  }

  function CodecFor(catalog: Catalog): Codec {
    Codec(raw => ParseEnvelope(catalog, raw),
          (e, stored) => WriteColumns(catalog, e, stored),
          c => ParseEnvelope(catalog, RawFromColumns(c)),
          e => CanonicalText(catalog, e),
          e => KeyOfEnvelope(catalog, e))
  }

  lemma SameIsReflexive(v: Json)
    requires Proper(v)
    ensures Same(v, v)
  {
    NormalDecidesSame(v, v);
  }

  lemma RawIsReadColumns(catalog: Catalog, e: Envelope)
    requires e.eventType in catalog
    ensures RawFromColumns(ColumnsFor(catalog, e, Obj(e.payload))) == Raw(catalog, e)
  {
  }

  /** Parsing a parsed envelope changes nothing. */
  lemma ParsedAgain(catalog: Catalog, raw: RawEnvelope, e: Envelope)
    requires ValidCatalog(catalog) && ParseEnvelope(catalog, raw) == Some(e)
    ensures e.eventType in catalog && ParseEnvelope(catalog, Raw(catalog, e)) == Some(e)
  {
    DocumentIsPrintable(catalog, raw, e);
    SameIsReflexive(Obj(e.payload));
    ColumnsRoundTrip(catalog, raw, e, Obj(e.payload));
    RawIsReadColumns(catalog, e);
  }

  lemma SerializeOfParsed(catalog: Catalog, raw: RawEnvelope, raw': RawEnvelope)
    requires ParseEnvelope(catalog, raw) == ParseEnvelope(catalog, raw')
    ensures SerializeEnvelope(catalog, raw) == SerializeEnvelope(catalog, raw')
  {
  }

  /** The text of an envelope in hand is the text its input would have got, and it exists. */
  lemma TextOfParsed(catalog: Catalog, raw: RawEnvelope, e: Envelope)
    requires ValidCatalog(catalog) && ParseEnvelope(catalog, raw) == Some(e)
    ensures CanonicalText(catalog, e).Some?
    ensures CanonicalText(catalog, e) == SerializeEnvelope(catalog, raw)
  {
    ParsedAgain(catalog, raw, e);
    SerializeOfParsed(catalog, raw, Raw(catalog, e));
    EqualEnvelopeTexts(catalog, raw, raw, e, e);
  }

  lemma WriteIsColumnsFor(catalog: Catalog, e: Envelope, stored: Json)
    requires e.eventType in catalog
    ensures WriteColumns(catalog, e, stored) == ColumnsFor(catalog, e, stored)
    ensures KeyOfColumns(WriteColumns(catalog, e, stored)) == KeyOfEnvelope(catalog, e)
  {
  }

  lemma WriteIsRead(catalog: Catalog, raw: RawEnvelope, e: Envelope, stored: Json)
    requires ValidCatalog(catalog) && ParseEnvelope(catalog, raw) == Some(e) && IsStoredForm(e, stored)
    ensures ParseEnvelope(catalog, RawFromColumns(WriteColumns(catalog, e, stored))) == Some(e)
    ensures KeyOfColumns(WriteColumns(catalog, e, stored)) == KeyOfEnvelope(catalog, e)
  {
    ParsedAgain(catalog, raw, e);
    WriteIsColumnsFor(catalog, e, stored);
    ColumnsRoundTrip(catalog, raw, e, stored);
  }

  lemma WriteIsCarried(codec: Codec, catalog: Catalog, raw: RawEnvelope, e: Envelope, stored: Json)
    requires codec == CodecFor(catalog)
    requires codec.parse(raw) == Some(e) && codec.text(e).Some?
    requires codec.read(codec.write(e, stored)) == Some(e)
    requires KeyOfColumns(codec.write(e, stored)) == codec.key(e)
    ensures Carries(codec, codec.write(e, stored), e)
  {
    assert codec.write(e, stored) == WriteColumns(catalog, e, stored);
  }

  lemma EnvelopeCodecIsLawful(catalog: Catalog)
    requires ValidCatalog(catalog)
    ensures Lawful(CodecFor(catalog))
  {
    var codec := CodecFor(catalog);
    forall raw, stored | codec.parse(raw).Some? && IsStoredForm(codec.parse(raw).value, stored)
      ensures Carries(codec, codec.write(codec.parse(raw).value, stored), codec.parse(raw).value)
    {
      var e := codec.parse(raw).value;
      WriteIsRead(catalog, raw, e, stored);
      TextOfParsed(catalog, raw, e);
      WriteIsCarried(codec, catalog, raw, e, stored);
    }
    forall e, f | IsParsed(codec, e) && IsParsed(codec, f) && codec.text(e) == codec.text(f)
      ensures e == f
    {
      TextIdentifies(catalog, e, f);
    }
  }

  lemma TextIdentifies(catalog: Catalog, e: Envelope, f: Envelope)
    requires ValidCatalog(catalog) && IsParsed(CodecFor(catalog), e) && IsParsed(CodecFor(catalog), f)
    requires CanonicalText(catalog, e) == CanonicalText(catalog, f)
    ensures e == f
  {
    var raw :| CodecFor(catalog).parse(raw) == Some(e);
    var raw' :| CodecFor(catalog).parse(raw') == Some(f);
    TextOfParsed(catalog, raw, e);
    TextOfParsed(catalog, raw', f);
    EqualEnvelopeTexts(catalog, raw, raw', e, f);
  }
}
