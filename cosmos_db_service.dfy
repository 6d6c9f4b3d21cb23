/**
 * The Service Bus to Cosmos DB forwarder: the JSON body becomes document
 * values, and one Service Bus message becomes one document (the container
 * and CreateItemAsync are not part of this model).
 */
module CosmosDbService {
  import opened JsonValues
  import opened Dictionaries
  import opened Flatten
  import opened Encoding
  import opened Records

  /** The values the service puts in a document (its Dictionary<string, object>). */
  datatype CosmosValue =
    | Text(text: string)
    | Decimal(literal: string)   // GetDecimal of the number written as `literal`
    | Boolean(truth: bool)
    | NullValue
    | Double(seconds: real)      // TimeSpan.TotalSeconds

  /** The fields of a ServiceBusReceivedMessage the service reads. */
  datatype ServiceBusMessage = ServiceBusMessage(
    messageId: string,
    body: string,                      // Body.ToString()
    contentType: Option<string>,
    correlationId: Option<string>,
    subject: Option<string>,
    timeToLiveSeconds: real,
    applicationProperties: Option<map<string, Json>>)

  /**
   * The value a non-object node becomes: arrays as their serialised text,
   * strings as themselves, numbers as decimals, booleans as booleans and
   * JSON null as null.
   */
  function Leaf(j: Json, lib: JsonLibrary): (v: CosmosValue)
    requires !j.Object?
    ensures v.Text? <==> j.Array? || j.String?
    ensures j.Array? ==> v.text == lib.serialize(j)
    ensures j.String? ==> v.text == j.text
    ensures v.Decimal? <==> j.Number?
    ensures v.Decimal? ==> v.literal == j.literal
    ensures v.Boolean? <==> j.Bool?
    ensures v.Boolean? ==> v.truth == j.truth
    ensures v.NullValue? <==> j.Null?
    ensures !v.Double?
  {
    match j
    case Array(_) => Text(lib.serialize(j))
    case String(text) => Text(text)   // GetString() is null only on a JSON null, so `?? string.Empty` never applies here
    case Number(literal) => Decimal(literal)
    case Bool(truth) => Boolean(truth)
    case Null => NullValue
  }

  /** The leaf encoding ExtractJsonElements applies, as a value the generic walk can take. */
  function Encoder(lib: JsonLibrary): (leaf: Json --> CosmosValue)
    ensures EncodesLeaves(leaf)
    ensures forall j: Json :: !j.Object? ==> leaf(j) == Leaf(j, lib)
  {
    (j: Json) requires !j.Object? => Leaf(j, lib)
  }

  /**
   * ExtractJsonElements: adds the values of `element` at `prefix` to
   * `attributes` one by one. The first Add whose key is already there throws;
   * `thrown` is that key, and the entries added before it stay.
   */
  method ExtractJsonElements(element: Json, attributes: Dictionary<CosmosValue>, prefix: string, lib: JsonLibrary)
    returns (thrown: Option<string>)
    requires attributes.Valid()
    modifies attributes
    ensures attributes.Valid()
    ensures var es := Attributes(element, prefix, Encoder(lib));
      var n := Admitted(KeysOf(old(attributes.Items())), KeysOf(es));
      && attributes.Items() == old(attributes.Items()) + es[..n]
      && thrown == if n == |es| then None else Some(es[n].key)
    decreases element
  {
    match element
    case Object(ms) =>
      ghost var start := attributes.Items();
      ObjectAttributes(ms, prefix, Encoder(lib));
      var i := 0;
      while i < |ms|
        invariant 0 <= i <= |ms|
        invariant attributes.Valid()
        invariant Admitted(KeysOf(start), KeysOf(MembersAttributes(ms[..i], prefix, Encoder(lib)))) == |MembersAttributes(ms[..i], prefix, Encoder(lib))|
        invariant attributes.Items() == start + MembersAttributes(ms[..i], prefix, Encoder(lib))
      {
        var property := ms[i];
        ghost var before := attributes.Items();
        thrown := ExtractJsonElements(property.value, attributes, Child(prefix, property.name), lib);
        MemberVisited(start, ms, prefix, i, Encoder(lib), attributes.Items(),
          Admitted(KeysOf(before), KeysOf(Attributes(property.value, Child(prefix, property.name), Encoder(lib)))));
        if thrown.Some? {
          return;
        }
        i := i + 1;
      }
      assert ms[..|ms|] == ms;
      thrown := None;
    case Array(_) =>
      ScalarAttributes(element, prefix, Encoder(lib));
      AdmittedOne(KeysOf(attributes.Items()), Entry(prefix, Leaf(element, lib)));
      var arrayJson := lib.serialize(element);
      var ok := attributes.Add(prefix, Text(arrayJson));
      thrown := if ok then None else Some(prefix);
    case String(text) =>
      ScalarAttributes(element, prefix, Encoder(lib));
      AdmittedOne(KeysOf(attributes.Items()), Entry(prefix, Leaf(element, lib)));
      var ok := attributes.Add(prefix, Text(text));
      thrown := if ok then None else Some(prefix);
    case Number(literal) =>
      ScalarAttributes(element, prefix, Encoder(lib));
      AdmittedOne(KeysOf(attributes.Items()), Entry(prefix, Leaf(element, lib)));
      var ok := attributes.Add(prefix, Decimal(literal));
      thrown := if ok then None else Some(prefix);
    case Bool(truth) =>
      ScalarAttributes(element, prefix, Encoder(lib));
      AdmittedOne(KeysOf(attributes.Items()), Entry(prefix, Leaf(element, lib)));
      var ok := attributes.Add(prefix, Boolean(truth));
      thrown := if ok then None else Some(prefix);
    case Null =>
      ScalarAttributes(element, prefix, Encoder(lib));
      AdmittedOne(KeysOf(attributes.Items()), Entry(prefix, Leaf(element, lib)));
      var ok := attributes.Add(prefix, NullValue);
      thrown := if ok then None else Some(prefix);
  }

  // ---------------------------------------------------------------------------
  // WriteMessageToCosmosDbAsync

  /**
   * The document's fixed fields, in the order the collection initializer adds
   * them, then ApplicationProperties (serialised) when the message has any.
   * `now` is the time stamp DateTime.UtcNow.ToString("o") gives.
   */
  function Metadata(m: ServiceBusMessage, lib: JsonLibrary, now: string): seq<Entry<CosmosValue>>
  {
    [ Entry("id", Text(m.messageId)),
      Entry("MessageId", Text(m.messageId)),
      Entry("Body", Text(m.body)),
      Entry("ContentType", Text(OrEmpty(m.contentType))),
      Entry("CorrelationId", Text(OrEmpty(m.correlationId))),
      Entry("Label", Text(OrEmpty(m.subject))),
      Entry("TimeToLive", Double(m.timeToLiveSeconds)),
      Entry("Timestamp", Text(now)) ]
    + (if m.applicationProperties.Some? && |m.applicationProperties.value| > 0
       then [Entry("ApplicationProperties", Text(lib.serializeMap(m.applicationProperties.value)))]
       else [])
  }

  /** The metadata keys are distinct and none lies under BodyJson, so the merge cannot collide with them. */
  lemma MetadataKeys(m: ServiceBusMessage, lib: JsonLibrary, now: string)
    ensures Distinct(KeysOf(Metadata(m, lib, now)))
    ensures OutsidePrefix(Metadata(m, lib, now), BodyJson)
  {
    var meta := Metadata(m, lib, now);
    // Each key is shorter than BodyJson or departs from it at its first letter.
    OutsideBodyJson("id", 0);
    OutsideBodyJson("MessageId", 0);
    OutsideBodyJson("Body", 0);
    OutsideBodyJson("ContentType", 0);
    OutsideBodyJson("CorrelationId", 0);
    OutsideBodyJson("Label", 0);
    OutsideBodyJson("TimeToLive", 0);
    OutsideBodyJson("Timestamp", 0);
    OutsideBodyJson("ApplicationProperties", 0);
    assert KeysOf(meta)[..8] ==
      ["id", "MessageId", "Body", "ContentType", "CorrelationId", "Label", "TimeToLive", "Timestamp"];
  }

  /**
   * The document always holds `id` and `MessageId`, both the message id, and
   * the raw body; the content type, correlation id and subject (under
   * `Label`) are stored as given, or as the empty string when missing; the
   * time to live and the time stamp are stored; ApplicationProperties holds
   * the serialised properties, and is there only when the message has some.
   */
  lemma MetadataFields(m: ServiceBusMessage, lib: JsonLibrary, now: string)
    ensures var meta := Metadata(m, lib, now);
      && Entry("id", Text(m.messageId)) in meta
      && Entry("MessageId", Text(m.messageId)) in meta
      && Entry("Body", Text(m.body)) in meta
      && (m.contentType.Some? ==> Entry("ContentType", Text(m.contentType.value)) in meta)
      && (m.contentType.None? ==> Entry("ContentType", Text("")) in meta)
      && (m.correlationId.Some? ==> Entry("CorrelationId", Text(m.correlationId.value)) in meta)
      && (m.correlationId.None? ==> Entry("CorrelationId", Text("")) in meta)
      && (m.subject.Some? ==> Entry("Label", Text(m.subject.value)) in meta)
      && (m.subject.None? ==> Entry("Label", Text("")) in meta)
      && Entry("TimeToLive", Double(m.timeToLiveSeconds)) in meta
      && Entry("Timestamp", Text(now)) in meta
      && ("ApplicationProperties" in KeysOf(meta) <==>
            m.applicationProperties.Some? && |m.applicationProperties.value| > 0)
      && (m.applicationProperties.Some? && |m.applicationProperties.value| > 0 ==>
            Entry("ApplicationProperties", Text(lib.serializeMap(m.applicationProperties.value))) in meta)
  {
    var meta := Metadata(m, lib, now);
    var ks := KeysOf(meta);
    assert forall i :: 0 <= i < 8 ==> |ks[i]| < |"ApplicationProperties"|;
    assert |meta| == 9 ==> ks[8] == "ApplicationProperties";
    assert meta[0] in meta && meta[1] in meta && meta[2] in meta && meta[3] in meta;
    assert meta[4] in meta && meta[5] in meta && meta[6] in meta && meta[7] in meta;
    assert |meta| == 9 ==> meta[8] in meta;
  }

  /** The body's values, when the body parses: None stands for the JsonException that is caught. */
  function BodyAttributes(m: ServiceBusMessage, lib: JsonLibrary): Option<seq<Entry<CosmosValue>>>
  {
    match lib.parse(m.body)
    case None => None
    case Some(j) => Some(Attributes(j, BodyJson, Encoder(lib)))
  }

  /** What WriteMessageToCosmosDbAsync does with `message`. */
  function Document(message: Option<ServiceBusMessage>, lib: JsonLibrary, now: string): WriteOutcome<CosmosValue>
  {
    match message
    case None => Ignored
    case Some(m) => Assemble(Metadata(m, lib, now), BodyAttributes(m, lib))
  }

  /**
   * The dictionary the document starts as: the collection initializer's
   * eight entries, then ApplicationProperties when the message has any. None
   * of these Adds throws.
   */
  method NewMessageDocument(m: ServiceBusMessage, lib: JsonLibrary, now: string)
    returns (messageDocument: Dictionary<CosmosValue>)
    ensures fresh(messageDocument) && messageDocument.Valid()
    ensures messageDocument.Items() == Metadata(m, lib, now)
  {
    messageDocument := new Dictionary<CosmosValue>();
    ghost var meta := Metadata(m, lib, now);
    MetadataKeys(m, lib, now);
    // the collection initializer: one Add per entry, in order
    var initializer := [
      Entry("id", Text(m.messageId)),
      Entry("MessageId", Text(m.messageId)),
      Entry("Body", Text(m.body)),
      Entry("ContentType", Text(OrEmpty(m.contentType))),
      Entry("CorrelationId", Text(OrEmpty(m.correlationId))),
      Entry("Label", Text(OrEmpty(m.subject))),
      Entry("TimeToLive", Double(m.timeToLiveSeconds)),
      Entry("Timestamp", Text(now))];
    assert initializer == meta[..8];
    assert KeysOf(initializer) == KeysOf(meta)[..8];
    AdmittedAll([], KeysOf(initializer));
    var thrown := MergeInto(messageDocument, initializer);
    assert thrown.None?;
    assert messageDocument.Items() == initializer;
    if m.applicationProperties.Some? && |m.applicationProperties.value| > 0 {
      var propertiesJson := lib.serializeMap(m.applicationProperties.value);
      FreshKey(meta, 8);
      var ok := messageDocument.Add("ApplicationProperties", Text(propertiesJson));
      assert ok;
      assert messageDocument.Items() == meta[..9];
    }
    assert meta[..|meta|] == meta;
  }

  /**
   * WriteMessageToCosmosDbAsync, up to the CreateItemAsync call: builds the
   * document in a dictionary and returns what is handed to the container,
   * or the key on which an Add threw (the exception is logged and rethrown).
   */
  method WriteMessageToCosmosDb(message: Option<ServiceBusMessage>, lib: JsonLibrary, now: string)
    returns (outcome: WriteOutcome<CosmosValue>)
    ensures outcome == Document(message, lib, now)
  {
    if message.None? {
      return Ignored;
    }
    var m := message.value;
    var messageDocument := NewMessageDocument(m, lib, now);
    ghost var meta := messageDocument.Items();
    var bodyJson := lib.parse(m.body);
    if bodyJson.Some? {
      ghost var es := Attributes(bodyJson.value, BodyJson, Encoder(lib));
      assert BodyAttributes(m, lib) == Some(es);
      var bodyElements := new Dictionary<CosmosValue>();
      assert KeysOf(bodyElements.Items()) == [];
      var thrown := ExtractJsonElements(bodyJson.value, bodyElements, BodyJson, lib);
      if thrown.Some? {
        return Rethrown(thrown.value);
      }
      var elements := bodyElements.Items();
      assert elements == es by {
        assert es[..|es|] == es;
      }
      thrown := MergeInto(messageDocument, elements);
      if thrown.Some? {
        return Rethrown(thrown.value);
      }
      assert messageDocument.Items() == meta + es;
    }
    outcome := Put(messageDocument.Items());
  }

  // ---------------------------------------------------------------------------
  // What the document holds

  /**
   * The outcome of WriteMessageToCosmosDbAsync, case by case: a null message
   * is ignored; a body that does not parse leaves the metadata alone; a
   * parsed body is merged whole when its paths are distinct, and otherwise
   * the Add of a repeated path throws and is rethrown.
   */
  lemma DocumentOutcome(message: Option<ServiceBusMessage>, lib: JsonLibrary, now: string)
    ensures message.None? ==> Document(message, lib, now) == Ignored
    ensures message.Some? && lib.parse(message.value.body).None? ==>
      Document(message, lib, now) == Put(Metadata(message.value, lib, now))
    ensures message.Some? && lib.parse(message.value.body).Some? ==>
      var j := lib.parse(message.value.body).value;
      var ks := KeysOf(FlatNodes(j, BodyJson));
      var doc := Document(message, lib, now);
      && !doc.Ignored?
      && (doc.Put? <==> Distinct(ks))
      && (doc.Put? ==> doc.item == Metadata(message.value, lib, now) + Attributes(j, BodyJson, Encoder(lib)))
      && (doc.Rethrown? ==> exists a, b :: 0 <= a < b < |ks| && ks[a] == doc.duplicate && ks[b] == doc.duplicate)
  {
    if message.Some? && lib.parse(message.value.body).Some? {
      MetadataKeys(message.value, lib, now);
      BodyOutcome(Metadata(message.value, lib, now), lib.parse(message.value.body).value, Encoder(lib));
    }
  }

  /** A body whose objects have distinct, dot-free member names is always written. */
  lemma WellKeyedBodyIsWritten(m: ServiceBusMessage, lib: JsonLibrary, now: string, j: Json)
    requires lib.parse(m.body) == Some(j) && WellKeyed(j)
    ensures Document(Some(m), lib, now) == Put(Metadata(m, lib, now) + Attributes(j, BodyJson, Encoder(lib)))
  {
    PathsDistinct(j, BodyJson);
    DocumentOutcome(Some(m), lib, now);
  }

  /** {"a.b":1,"a":{"b":2}}: the dotted name and the nested member both spell BodyJson.a.b, so the write throws. */
  lemma DottedKeyRethrown(m: ServiceBusMessage, lib: JsonLibrary, now: string)
    requires lib.parse(m.body) == Some(Object([Member("a.b", Number("1")), Member("a", Object([Member("b", Number("2"))]))]))
    ensures Document(Some(m), lib, now) == Rethrown("BodyJson.a.b")
  {
    DottedNameCollides();
    DocumentOutcome(Some(m), lib, now);
    var ks := KeysOf(FlatNodes(lib.parse(m.body).value, BodyJson));
    assert !Distinct(ks) by {
      assert ks[0] == ks[1];
    }
  }

  /** An array and a string holding the array's serialised text become the same document value. */
  lemma ArrayLooksLikeString(items: seq<Json>, lib: JsonLibrary)
    ensures Leaf(Array(items), lib) == Leaf(String(lib.serialize(Array(items))), lib)
  {
  }

  /**
   * {"order":{"id":42,"items":["x","y"],"paid":true,"note":null}} under
   * BodyJson: four entries, one per leaf, the array kept whole as its text.
   */
  lemma MixedDocument(lib: JsonLibrary)
    ensures var items := Array([String("x"), String("y")]);
      var order := [Member("id", Number("42")), Member("items", items), Member("paid", Bool(true)), Member("note", Null)];
      Attributes(Object([Member("order", Object(order))]), BodyJson, Encoder(lib)) ==
        [ Entry("BodyJson.order.id", Decimal("42")),
          Entry("BodyJson.order.items", Text(lib.serialize(items))),
          Entry("BodyJson.order.paid", Boolean(true)),
          Entry("BodyJson.order.note", NullValue) ]
  {
    var items := Array([String("x"), String("y")]);
    var order := [Member("id", Number("42")), Member("items", items), Member("paid", Bool(true)), Member("note", Null)];
    var j := Object([Member("order", Object(order))]);
    MixedDocumentNodes();
    AttributesOfNodes(j, BodyJson, Encoder(lib));
  }
}
