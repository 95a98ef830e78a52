/**
 When two command requests count as the same: the payload's id arrays are made set-like, the request
 is printed canonically, and the text is hashed. The hash function is a parameter, taken injective.
 */
module CommandRequests {
  import opened Utf16
  import opened Wrappers
  import opened KeyOrder
  import opened CanonicalJson
  import opened CanonicalRoundTrip
  import opened Envelopes

  // ----- Arrays that stand for sets -----

  /** `new Set(ids)` in insertion order: the first occurrence of each. */
  function Dedup(ids: seq<Text>): seq<Text> {
    if |ids| == 0 then []
    else Dedup(ids[..|ids| - 1]) + if ids[|ids| - 1] in ids[..|ids| - 1] then [] else [ids[|ids| - 1]]
  }

  function Tag(ids: seq<Text>): (tagged: seq<Entry<()>>)
    ensures |tagged| == |ids| && forall i | 0 <= i < |ids| :: tagged[i] == Entry(ids[i], ())
  {
    seq(|ids|, i requires 0 <= i < |ids| => Entry(ids[i], ()))
  }

  function Untag(tagged: seq<Entry<()>>): (ids: seq<Text>)
    ensures |tagged| == |ids| && forall i | 0 <= i < |ids| :: ids[i] == tagged[i].key
  {
    seq(|tagged|, i requires 0 <= i < |tagged| => tagged[i].key)
  }

  /** `[...new Set(ids)].sort()` */
  function CanonicalIds(ids: seq<Text>): seq<Text> {
    Untag(Sort(Tag(Dedup(ids))))
  }

  lemma {:induction false} DedupKeepsMembers(ids: seq<Text>)
    ensures forall t :: t in Dedup(ids) <==> t in ids
    ensures forall i, j | 0 <= i < j < |Dedup(ids)| :: Dedup(ids)[i] != Dedup(ids)[j]
  {
    if |ids| > 0 {
      var front, last := ids[..|ids| - 1], ids[|ids| - 1];
      DedupKeepsMembers(front);
      assert ids == front + [last];
    }
  }

  lemma OneUnit(u: ())
    ensures u == ()
  {
    match u
    case () =>
  }

  lemma TagMembers(ids: seq<Text>)
    ensures forall e :: e in Tag(ids) <==> e.key in ids
  {
    forall e: Entry<()> | e.key in ids
      ensures e in Tag(ids)
    {
      var i :| 0 <= i < |ids| && ids[i] == e.key;
      OneUnit(e.value);
      assert Tag(ids)[i] == e;
    }
  }

  lemma UntagTells(xs: seq<Entry<()>>, ys: seq<Entry<()>>)
    ensures Untag(xs) == Untag(ys) <==> xs == ys
  {
    if Untag(xs) == Untag(ys) {
      forall i | 0 <= i < |xs|
        ensures xs[i] == ys[i]
      {
        assert xs[i].key == Untag(xs)[i] == Untag(ys)[i] == ys[i].key;
        OneUnit(xs[i].value);
        OneUnit(ys[i].value);
      }
    }
  }

  /** Canonical arrays are equal exactly when the arrays have the same members. */
  lemma CanonicalIdsAreSets(xs: seq<Text>, ys: seq<Text>)
    ensures CanonicalIds(xs) == CanonicalIds(ys) <==> forall t :: t in xs <==> t in ys
  {
    DedupKeepsMembers(xs);
    DedupKeepsMembers(ys);
    TagMembers(Dedup(xs));
    TagMembers(Dedup(ys));
    SortForgetsOrder(Tag(Dedup(xs)), Tag(Dedup(ys)));
    UntagTells(Sort(Tag(Dedup(xs))), Sort(Tag(Dedup(ys))));
    if forall e :: e in Tag(Dedup(xs)) <==> e in Tag(Dedup(ys)) {
      forall t
        ensures t in xs <==> t in ys
      {
        assert Entry(t, ()) in Tag(Dedup(xs)) <==> t in xs;
        assert Entry(t, ()) in Tag(Dedup(ys)) <==> t in ys;
      }
    }
  }

  /** They hold the same ids, each once, in code-unit order. */
  lemma CanonicalIdsAreSorted(ids: seq<Text>)
    ensures forall t :: t in CanonicalIds(ids) <==> t in ids
    ensures forall i, j | 0 <= i < j < |CanonicalIds(ids)| :: ComesBefore(CanonicalIds(ids)[i], CanonicalIds(ids)[j])
  {
    var tagged := Tag(Dedup(ids));
    DedupKeepsMembers(ids);
    TagMembers(Dedup(ids));
    SortIsByCodeUnit(tagged);
    forall t
      ensures t in CanonicalIds(ids) <==> t in ids
    {
      SortMember(tagged, Entry(t, ()));
      if t in CanonicalIds(ids) {
        var i :| 0 <= i < |Sort(tagged)| && Sort(tagged)[i].key == t;
        OneUnit(Sort(tagged)[i].value);
        assert Sort(tagged)[i] == Entry(t, ());
      }
      if t in ids {
        assert Entry(t, ()) in Sort(tagged);
        var i :| 0 <= i < |Sort(tagged)| && Sort(tagged)[i] == Entry(t, ());
        assert CanonicalIds(ids)[i] == t;
      }
    }
  }

  // ----- The payload -----

  const ID_KEYS: seq<Text> :=
    [Ascii("organizationIds"), Ascii("initiativeIds"), Ascii("attendeePersonIds"), Ascii("contributorPersonIds")]

  predicate IsIdArray(v: Json) {
    v.Arr? && forall e | e in v.elems :: e.Item? && e.value.Str?
  }

  function Ids(v: Json): (ids: seq<Text>)
    requires IsIdArray(v)
    ensures |ids| == |v.elems| && forall i | 0 <= i < |ids| :: v.elems[i] == Item(Str(ids[i]))
  {
    seq(|v.elems|, i requires 0 <= i < |v.elems| => assert v.elems[i] in v.elems; v.elems[i].value.s)
  }

  function IdArray(ids: seq<Text>): (v: Json)
    ensures IsIdArray(v) && |v.elems| == |ids| && forall i | 0 <= i < |ids| :: v.elems[i] == Item(Str(ids[i]))
  {
    Arr(seq(|ids|, i requires 0 <= i < |ids| => Item(Str(ids[i]))))
  }

  /** The field after canonicalization; parsing has made sure that an array there is one of strings. */
  function CanonicalField(f: Entry<Json>): Entry<Json> {
    if f.key in ID_KEYS && IsIdArray(f.value) then Entry(f.key, IdArray(CanonicalIds(Ids(f.value)))) else f
  }

  function CanonicalPayload(fields: seq<Entry<Json>>): (r: seq<Entry<Json>>)
    ensures |r| == |fields| && forall i | 0 <= i < |fields| :: r[i] == CanonicalField(fields[i])
  {
    seq(|fields|, i requires 0 <= i < |fields| => CanonicalField(fields[i]))
  }

  /** The index of the field with this key, or the number of fields. */
  function Position(fields: seq<Entry<Json>>, key: Text): (i: nat)
    ensures i <= |fields| && (i < |fields| ==> fields[i].key == key) && forall k | 0 <= k < i :: fields[k].key != key
  {
    if |fields| == 0 || fields[0].key == key then 0 else 1 + Position(fields[1..], key)
  }

  lemma IdKeysDiffer()
    ensures |ID_KEYS| == 4 && forall i, j | 0 <= i < j < 4 :: ID_KEYS[i] != ID_KEYS[j]
  {
    assert |ID_KEYS[0]| == 15 && |ID_KEYS[1]| == 13 && |ID_KEYS[2]| == 17 && |ID_KEYS[3]| == 20;
  }

  /** `canonicalizeB1Payload`: overwrite the four fields of a copy, one after the other. */
  method CanonicalizePayload(payload: seq<Entry<Json>>) returns (copy: seq<Entry<Json>>)
    requires DistinctKeys(payload)
    requires forall f | f in payload :: IsParsedField(f)
    ensures copy == CanonicalPayload(payload)
  {
    IdKeysDiffer();
    copy := payload;
    for n := 0 to |ID_KEYS|
      invariant |copy| == |payload|
      invariant forall i | 0 <= i < |payload| ::
                  copy[i] == if payload[i].key in ID_KEYS[..n] then CanonicalField(payload[i]) else payload[i]
    {
      var key := ID_KEYS[n];
      var at := Position(copy, key);
      assert forall i | 0 <= i < |payload| :: copy[i].key == payload[i].key;
      assert forall k :: k in ID_KEYS[..n + 1] <==> k in ID_KEYS[..n] || k == key;
      if at < |copy| {
        assert payload[at] in payload;
        if copy[at].value.Arr? {
          copy := copy[at := Entry(key, IdArray(CanonicalIds(Ids(copy[at].value))))];
        }
      }
    }
    assert ID_KEYS[..|ID_KEYS|] == ID_KEYS;
  }

  // ----- Same requests -----

  /** Fields that mean the same: id arrays as sets, all else as JSON values. */
  ghost predicate SameField(f: Entry<Json>, g: Entry<Json>) {
    if f.key in ID_KEYS && IsIdArray(f.value) && IsIdArray(g.value) then
      forall t :: t in Ids(f.value) <==> t in Ids(g.value)
    else Same(f.value, g.value)
  }

  /** Payloads that differ only in the order of members and in order and repetition within the id arrays. */
  ghost predicate SamePayload(fs: seq<Entry<Json>>, gs: seq<Entry<Json>>) {
    && Keys(fs) == Keys(gs)
    && forall f | f in fs :: HasCounterpart(f, gs)
  }

  /** Parsing has made sure that an array under an id key holds strings only. */
  predicate IsParsedField(f: Entry<Json>) {
    f.key in ID_KEYS && f.value.Arr? ==> IsIdArray(f.value)
  }

  ghost predicate GoodPayload(fields: seq<Entry<Json>>) {
    Printable(Obj(fields)) && forall f | f in fields :: IsParsedField(f)
  }

  lemma IdArraysSame(xs: seq<Text>, ys: seq<Text>)
    ensures Same(IdArray(xs), IdArray(ys)) <==> xs == ys
  {
    var v, w := IdArray(xs), IdArray(ys);
    if Same(v, w) {
      assert |v.elems| == |w.elems|;
      forall i | 0 <= i < |xs|
        ensures xs[i] == ys[i]
      {
        assert Same(v.elems[i].value, w.elems[i].value);
      }
    }
  }

  lemma CanonicalFieldsTell(f: Entry<Json>, g: Entry<Json>)
    requires f.key == g.key
    requires IsParsedField(f) && IsParsedField(g)
    ensures Same(CanonicalField(f).value, CanonicalField(g).value) <==> SameField(f, g)
  {
    if f.key in ID_KEYS && f.value.Arr? && g.value.Arr? {
      CanonicalIdsAreSets(Ids(f.value), Ids(g.value));
      IdArraysSame(CanonicalIds(Ids(f.value)), CanonicalIds(Ids(g.value)));
    }
  }

  lemma CanonicalMembers(fields: seq<Entry<Json>>)
    ensures forall f | f in fields :: CanonicalField(f) in CanonicalPayload(fields)
    ensures forall c | c in CanonicalPayload(fields) :: exists f | f in fields :: c == CanonicalField(f)
  {
    var canonical := CanonicalPayload(fields);
    forall f | f in fields
      ensures CanonicalField(f) in canonical
    {
      var i :| 0 <= i < |fields| && fields[i] == f;
      assert canonical[i] == CanonicalField(f);
    }
    forall c | c in canonical
      ensures exists f | f in fields :: c == CanonicalField(f)
    {
      var i :| 0 <= i < |canonical| && canonical[i] == c;
      assert fields[i] in fields;
    }
  }

  lemma MemberIsCanonical(fields: seq<Entry<Json>>, f: Entry<Json>)
    requires f in fields
    ensures CanonicalField(f) in CanonicalPayload(fields)
  {
    CanonicalMembers(fields);
  }

  lemma CanonicalComesFrom(fields: seq<Entry<Json>>, c: Entry<Json>) returns (f: Entry<Json>)
    requires c in CanonicalPayload(fields)
    ensures f in fields && c == CanonicalField(f)
  {
    CanonicalMembers(fields);
    f :| f in fields && c == CanonicalField(f);
  }

  lemma CanonicalKeys(fields: seq<Entry<Json>>)
    ensures Keys(CanonicalPayload(fields)) == Keys(fields)
  {
    CanonicalMembers(fields);
    forall key
      ensures key in Keys(CanonicalPayload(fields)) <==> key in Keys(fields)
    {
      KeyHasMember(fields, key);
      KeyHasMember(CanonicalPayload(fields), key);
      if key in Keys(fields) {
        var f :| f in fields && f.key == key;
        assert CanonicalField(f).key == key;
      }
      if key in Keys(CanonicalPayload(fields)) {
        var c :| c in CanonicalPayload(fields) && c.key == key;
        var f :| f in fields && c == CanonicalField(f);
      }
    }
  }

  /** A member of one canonical payload has its counterpart in the other. */
  lemma CounterpartOfMember(gs: seq<Entry<Json>>, f: Entry<Json>, g: Entry<Json>)
    requires g in gs && f.key == g.key && SameField(f, g)
    requires IsParsedField(f) && IsParsedField(g)
    ensures exists d | d in CanonicalPayload(gs) :: CanonicalField(f).key == d.key && Same(CanonicalField(f).value, d.value)
  {
    CanonicalMembers(gs);
    CanonicalFieldsTell(f, g);
    var d := CanonicalField(g);
    assert d in CanonicalPayload(gs);
  }

  lemma SamePayloadsPrintSame(fs: seq<Entry<Json>>, gs: seq<Entry<Json>>)
    requires GoodPayload(fs) && GoodPayload(gs) && SamePayload(fs, gs)
    ensures Same(Obj(CanonicalPayload(fs)), Obj(CanonicalPayload(gs)))
  {
    CanonicalKeys(fs);
    CanonicalKeys(gs);
    forall c | c in CanonicalPayload(fs)
      ensures exists d | d in CanonicalPayload(gs) :: c.key == d.key && Same(c.value, d.value)
    {
      CanonicalMembers(fs);
      var f :| f in fs && c == CanonicalField(f);
      var g :| g in gs && f.key == g.key && SameField(f, g);
      CounterpartOfMember(gs, f, g);
    }
  }

  lemma CounterpartInCanonical(fs: seq<Entry<Json>>, gs: seq<Entry<Json>>, c: Entry<Json>) returns (g: Entry<Json>)
    requires Same(Obj(CanonicalPayload(fs)), Obj(CanonicalPayload(gs))) && c in CanonicalPayload(fs)
    ensures g in gs && c.key == CanonicalField(g).key && Same(c.value, CanonicalField(g).value)
  {
    var d := SameObjectMember(CanonicalPayload(fs), CanonicalPayload(gs), c);
    g := CanonicalComesFrom(gs, d);
  }

  lemma FieldsOfSame(f: Entry<Json>, g: Entry<Json>)
    requires IsParsedField(f) && IsParsedField(g)
    requires CanonicalField(f).key == CanonicalField(g).key && Same(CanonicalField(f).value, CanonicalField(g).value)
    ensures f.key == g.key && SameField(f, g)
  {
    CanonicalFieldsTell(f, g);
  }

  ghost predicate HasCounterpart(f: Entry<Json>, gs: seq<Entry<Json>>) {
    exists g | g in gs :: f.key == g.key && SameField(f, g)
  }

  lemma PrintedCounterpart(fs: seq<Entry<Json>>, gs: seq<Entry<Json>>, f: Entry<Json>)
    requires f in fs && IsParsedField(f) && forall g | g in gs :: IsParsedField(g)
    requires Same(Obj(CanonicalPayload(fs)), Obj(CanonicalPayload(gs)))
    ensures HasCounterpart(f, gs)
  {
    MemberIsCanonical(fs, f);
    var g := CounterpartInCanonical(fs, gs, CanonicalField(f));
    FieldsOfSame(f, g);
  }

  lemma PrintedSameAreSamePayloads(fs: seq<Entry<Json>>, gs: seq<Entry<Json>>)
    requires GoodPayload(fs) && GoodPayload(gs) && Same(Obj(CanonicalPayload(fs)), Obj(CanonicalPayload(gs)))
    ensures SamePayload(fs, gs)
  {
    CanonicalKeys(fs);
    CanonicalKeys(gs);
    SameKeySets(CanonicalPayload(fs), CanonicalPayload(gs));
    forall f | f in fs
      ensures HasCounterpart(f, gs)
    {
      PrintedCounterpart(fs, gs, f);
    }
  }

  // ----- The hash -----

  datatype Request = Request(kind: Text, payload: seq<Entry<Json>>)

  const KIND_KEY := Ascii("kind")
  const PAYLOAD_KEY := Ascii("payload")

  /** What is printed and hashed. */
  function RequestDocument(r: Request): Json {
    Obj([Entry(KIND_KEY, Str(r.kind)), Entry(PAYLOAD_KEY, Obj(CanonicalPayload(r.payload)))])
  }

  /** `hashCanonicalCommandRequest` */
  function RequestHash(hash: Text -> Text, r: Request): Option<Text> {
    var text := Serialize(RequestDocument(r));
    if text.None? then None else Some(hash(text.value))
  }

  ghost predicate Injective(hash: Text -> Text) {
    forall a, b | hash(a) == hash(b) :: a == b
  }

  lemma IdArrayIsPrintable(ids: seq<Text>)
    ensures Printable(IdArray(ids))
  {
  }

  lemma CanonicalPayloadIsPrintable(fields: seq<Entry<Json>>)
    requires GoodPayload(fields)
    ensures Printable(Obj(CanonicalPayload(fields)))
  {
    var canonical := CanonicalPayload(fields);
    forall i | 0 <= i < |canonical|
      ensures Printable(canonical[i].value)
    {
      assert fields[i] in fields;
      if canonical[i] != fields[i] {
        IdArrayIsPrintable(CanonicalIds(Ids(fields[i].value)));
      }
    }
    assert forall i | 0 <= i < |fields| :: canonical[i].key == fields[i].key;
    ObjectIsPrintable(canonical);
  }

  lemma RequestDocumentIsPrintable(r: Request)
    requires GoodPayload(r.payload)
    ensures Printable(RequestDocument(r)) && DistinctKeys(RequestDocument(r).fields)
  {
    CanonicalPayloadIsPrintable(r.payload);
    var fields := RequestDocument(r).fields;
    assert |KIND_KEY| == 4 && |PAYLOAD_KEY| == 7;
    assert Printable(fields[0].value) && Printable(fields[1].value);
    ObjectIsPrintable(fields);
  }

  lemma TwoFieldsSame(fs: seq<Entry<Json>>, gs: seq<Entry<Json>>)
    requires |fs| == 2 && |gs| == 2 && fs[0].key == gs[0].key && fs[1].key == gs[1].key
    requires Same(fs[0].value, gs[0].value) && Same(fs[1].value, gs[1].value)
    ensures Same(Obj(fs), Obj(gs))
  {
    SameKeysPairwise(fs, gs);
    forall f | f in fs
      ensures exists g | g in gs :: f.key == g.key && Same(f.value, g.value)
    {
      var i := if f == fs[0] then 0 else 1;
      assert gs[i] in gs && f.key == gs[i].key && Same(f.value, gs[i].value);
    }
  }

  lemma DocumentsTellRequests(r: Request, s: Request)
    requires DistinctKeys(RequestDocument(s).fields) && Same(RequestDocument(r), RequestDocument(s))
    ensures r.kind == s.kind && Same(Obj(CanonicalPayload(r.payload)), Obj(CanonicalPayload(s.payload)))
  {
    SameValueAt(RequestDocument(r).fields, RequestDocument(s).fields, 0);
    SameValueAt(RequestDocument(r).fields, RequestDocument(s).fields, 1);
  }

  lemma SameKeysPairwise(fs: seq<Entry<Json>>, gs: seq<Entry<Json>>)
    requires |fs| == 2 && |gs| == 2 && fs[0].key == gs[0].key && fs[1].key == gs[1].key
    ensures Keys(fs) == Keys(gs)
  {
    assert fs[1..][1..] == [] && gs[1..][1..] == [];
    assert Keys(fs) == {fs[0].key} + Keys(fs[1..]) && Keys(gs) == {gs[0].key} + Keys(gs[1..]);
    assert Keys(fs[1..]) == {fs[1].key} + Keys(fs[1..][1..]) && Keys(gs[1..]) == {gs[1].key} + Keys(gs[1..][1..]);
  }

  /**
   Two requests hash alike exactly when they are of the same kind and their payloads differ at most
   in member order and in order and repetition within the four id arrays.
   */
  lemma HashesTellRequests(hash: Text -> Text, r: Request, s: Request)
    requires Injective(hash) && GoodPayload(r.payload) && GoodPayload(s.payload)
    ensures RequestHash(hash, r).Some?
    ensures RequestHash(hash, r) == RequestHash(hash, s) <==> r.kind == s.kind && SamePayload(r.payload, s.payload)
  {
    RequestDocumentIsPrintable(r);
    RequestDocumentIsPrintable(s);
    RoundTrip(RequestDocument(r));
    RoundTrip(RequestDocument(s));
    EqualTextsMeanSameValues(RequestDocument(r), RequestDocument(s));
    if Same(RequestDocument(r), RequestDocument(s)) {
      DocumentsTellRequests(r, s);
      PrintedSameAreSamePayloads(r.payload, s.payload);
    }
    if r.kind == s.kind && SamePayload(r.payload, s.payload) {
      SamePayloadsPrintSame(r.payload, s.payload);
      TwoFieldsSame(RequestDocument(r).fields, RequestDocument(s).fields);
    }
  }
}
