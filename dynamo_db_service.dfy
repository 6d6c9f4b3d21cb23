/**
 * The SQS to DynamoDB forwarder: the JSON body becomes DynamoDB attribute
 * values, and one SQS record becomes one item (PutItemAsync itself is not
 * part of this model).
 */
module DynamoDbService {
  import opened JsonValues
  import opened Dictionaries
  import opened Flatten
  import opened Encoding
  import opened Records

  /** The one member of an AttributeValue that the service sets. */
  datatype AttributeValue =
    | S(s: string)
    | N(n: string)
    | BOOL(b: bool)
    | NULL(isNull: bool)

  /** The fields of an SQSEvent.SQSMessage the service reads. */
  datatype SqsMessage = SqsMessage(
    messageId: string,
    receiptHandle: string,
    body: string,
    md5OfBody: string,
    messageAttributes: Option<map<string, Json>>)   // null, or the attributes as the serialiser sees them

  /**
   * The attribute a non-object node becomes: arrays as their serialised text
   * in S, strings in S, numbers as their raw literal in N, booleans in BOOL
   * and null as NULL = true.
   */
  function Leaf(j: Json, lib: JsonLibrary): (a: AttributeValue)
    requires !j.Object?
    ensures a.S? <==> j.Array? || j.String?
    ensures j.Array? ==> a.s == lib.serialize(j)
    ensures j.String? ==> a.s == j.text
    ensures a.N? <==> j.Number?
    ensures a.N? ==> a.n == j.literal
    ensures a.BOOL? <==> j.Bool?
    ensures a.BOOL? ==> a.b == j.truth
    ensures a.NULL? <==> j.Null?
    ensures a.NULL? ==> a.isNull
  {
    match j
    case Array(_) => S(lib.serialize(j))
    case String(text) => S(text)   // GetString() is null only on a JSON null, so `?? string.Empty` never applies here
    case Number(literal) => N(literal)
    case Bool(truth) => BOOL(truth)
    case Null => NULL(true)
  }

  /** The leaf encoding ExtractJsonElements applies, as a value the generic walk can take. */
  function Encoder(lib: JsonLibrary): (leaf: Json --> AttributeValue)
    ensures EncodesLeaves(leaf)
    ensures forall j: Json :: !j.Object? ==> leaf(j) == Leaf(j, lib)
  {
    (j: Json) requires !j.Object? => Leaf(j, lib)
  }

  /**
   * ExtractJsonElements: adds the attributes of `element` at `prefix` to
   * `attributes` one by one. The first Add whose key is already there throws;
   * `thrown` is that key, and the entries added before it stay.
   */
  method ExtractJsonElements(element: Json, attributes: Dictionary<AttributeValue>, prefix: string, lib: JsonLibrary)
    returns (thrown: Option<string>)
    requires attributes.Valid()
    modifies attributes
    ensures attributes.Valid()
    ensures var es := Attributes(element, prefix, Encoder(lib));
      var n := Admitted(KeysOf(old(attributes.Items())), KeysOf(es));
      && attributes.Items() == old(attributes.Items()) + es[..n]
      && thrown == if n == |es| then None else Some(es[n].key)
    decreases element
  {
    match element
    case Object(ms) =>
      ghost var start := attributes.Items();
      ObjectAttributes(ms, prefix, Encoder(lib));
      var i := 0;
      while i < |ms|
        invariant 0 <= i <= |ms|
        invariant attributes.Valid()
        invariant Admitted(KeysOf(start), KeysOf(MembersAttributes(ms[..i], prefix, Encoder(lib)))) == |MembersAttributes(ms[..i], prefix, Encoder(lib))|
        invariant attributes.Items() == start + MembersAttributes(ms[..i], prefix, Encoder(lib))
      {
        var property := ms[i];
        ghost var before := attributes.Items();
        thrown := ExtractJsonElements(property.value, attributes, Child(prefix, property.name), lib);
        MemberVisited(start, ms, prefix, i, Encoder(lib), attributes.Items(),
          Admitted(KeysOf(before), KeysOf(Attributes(property.value, Child(prefix, property.name), Encoder(lib)))));
        if thrown.Some? {
          return;
        }
        i := i + 1;
      }
      assert ms[..|ms|] == ms;
      thrown := None;
    case Array(_) =>
      ScalarAttributes(element, prefix, Encoder(lib));
      AdmittedOne(KeysOf(attributes.Items()), Entry(prefix, Leaf(element, lib)));
      var arrayJson := lib.serialize(element);
      var ok := attributes.Add(prefix, S(arrayJson));
      thrown := if ok then None else Some(prefix);
    case String(text) =>
      ScalarAttributes(element, prefix, Encoder(lib));
      AdmittedOne(KeysOf(attributes.Items()), Entry(prefix, Leaf(element, lib)));
      var ok := attributes.Add(prefix, S(text));
      thrown := if ok then None else Some(prefix);
    case Number(literal) =>
      ScalarAttributes(element, prefix, Encoder(lib));
      AdmittedOne(KeysOf(attributes.Items()), Entry(prefix, Leaf(element, lib)));
      var ok := attributes.Add(prefix, N(literal));
      thrown := if ok then None else Some(prefix);
    case Bool(truth) =>
      ScalarAttributes(element, prefix, Encoder(lib));
      AdmittedOne(KeysOf(attributes.Items()), Entry(prefix, Leaf(element, lib)));
      var ok := attributes.Add(prefix, BOOL(truth));
      thrown := if ok then None else Some(prefix);
    case Null =>
      ScalarAttributes(element, prefix, Encoder(lib));
      AdmittedOne(KeysOf(attributes.Items()), Entry(prefix, Leaf(element, lib)));
      var ok := attributes.Add(prefix, NULL(true));
      thrown := if ok then None else Some(prefix);
  }

  // ---------------------------------------------------------------------------
  // WriteMessageToDynamoDbAsync

  /**
   * The item's fixed attributes, in the order the collection initializer adds
   * them, then MessageAttributes (serialised) when the message has any. `now`
   * is the time stamp DateTime.UtcNow.ToString("o") gives.
   */
  function Metadata(r: SqsMessage, lib: JsonLibrary, now: string): seq<Entry<AttributeValue>>
  {
    [ Entry("MessageId", S(r.messageId)),
      Entry("ReceiptHandle", S(r.receiptHandle)),
      Entry("Body", S(r.body)),
      Entry("Md5OfBody", S(r.md5OfBody)),
      Entry("Timestamp", S(now)) ]
    + (if r.messageAttributes.Some? && |r.messageAttributes.value| > 0
       then [Entry("MessageAttributes", S(lib.serializeMap(r.messageAttributes.value)))]
       else [])
  }

  /** The metadata keys are distinct and none lies under BodyJson, so the merge cannot collide with them. */
  lemma MetadataKeys(r: SqsMessage, lib: JsonLibrary, now: string)
    ensures Distinct(KeysOf(Metadata(r, lib, now)))
    ensures OutsidePrefix(Metadata(r, lib, now), BodyJson)
  {
    var meta := Metadata(r, lib, now);
    // Each key is shorter than BodyJson or departs from it at its first letter.
    OutsideBodyJson("MessageId", 0);
    OutsideBodyJson("ReceiptHandle", 0);
    OutsideBodyJson("Body", 0);
    OutsideBodyJson("Md5OfBody", 0);
    OutsideBodyJson("Timestamp", 0);
    OutsideBodyJson("MessageAttributes", 0);
    assert KeysOf(meta)[..5] == ["MessageId", "ReceiptHandle", "Body", "Md5OfBody", "Timestamp"];
  }

  /**
   * The item always holds the message id, receipt handle, raw body, body
   * digest and time stamp; MessageAttributes holds the serialised attributes,
   * and is there only when the message has some.
   */
  lemma MetadataFields(r: SqsMessage, lib: JsonLibrary, now: string)
    ensures var meta := Metadata(r, lib, now);
      && Entry("MessageId", S(r.messageId)) in meta
      && Entry("ReceiptHandle", S(r.receiptHandle)) in meta
      && Entry("Body", S(r.body)) in meta
      && Entry("Md5OfBody", S(r.md5OfBody)) in meta
      && Entry("Timestamp", S(now)) in meta
      && ("MessageAttributes" in KeysOf(meta) <==> r.messageAttributes.Some? && |r.messageAttributes.value| > 0)
      && (r.messageAttributes.Some? && |r.messageAttributes.value| > 0 ==>
            Entry("MessageAttributes", S(lib.serializeMap(r.messageAttributes.value))) in meta)
  {
    var meta := Metadata(r, lib, now);
    var ks := KeysOf(meta);
    assert forall i :: 0 <= i < 5 ==> |ks[i]| < |"MessageAttributes"|;
    assert |meta| == 6 ==> ks[5] == "MessageAttributes";
    assert meta[0] in meta && meta[1] in meta && meta[2] in meta && meta[3] in meta && meta[4] in meta;
    assert |meta| == 6 ==> meta[5] in meta;
  }

  /** The body's attributes, when the body parses: None stands for the JsonException that is caught. */
  function BodyAttributes(r: SqsMessage, lib: JsonLibrary): Option<seq<Entry<AttributeValue>>>
  {
    match lib.parse(r.body)
    case None => None
    case Some(j) => Some(Attributes(j, BodyJson, Encoder(lib)))
  }

  /** What WriteMessageToDynamoDbAsync does with `record`. */
  function Item(record: Option<SqsMessage>, lib: JsonLibrary, now: string): WriteOutcome<AttributeValue>
  {
    match record
    case None => Ignored
    case Some(r) => Assemble(Metadata(r, lib, now), BodyAttributes(r, lib))
  }

  /**
   * The dictionary the item starts as: the collection initializer's five
   * entries, then MessageAttributes when the message has any. None of these
   * Adds throws.
   */
  method NewMessageData(r: SqsMessage, lib: JsonLibrary, now: string) returns (messageData: Dictionary<AttributeValue>)
    ensures fresh(messageData) && messageData.Valid()
    ensures messageData.Items() == Metadata(r, lib, now)
  {
    messageData := new Dictionary<AttributeValue>();
    ghost var meta := Metadata(r, lib, now);
    MetadataKeys(r, lib, now);
    // the collection initializer: one Add per entry, in order
    var initializer := [
      Entry("MessageId", S(r.messageId)),
      Entry("ReceiptHandle", S(r.receiptHandle)),
      Entry("Body", S(r.body)),
      Entry("Md5OfBody", S(r.md5OfBody)),
      Entry("Timestamp", S(now))];
    assert initializer == meta[..5];
    assert KeysOf(initializer) == KeysOf(meta)[..5];
    AdmittedAll([], KeysOf(initializer));
    var thrown := MergeInto(messageData, initializer);
    assert thrown.None?;
    assert messageData.Items() == initializer;
    if r.messageAttributes.Some? && |r.messageAttributes.value| > 0 {
      var attributesJson := lib.serializeMap(r.messageAttributes.value);
      FreshKey(meta, 5);
      var ok := messageData.Add("MessageAttributes", S(attributesJson));
      assert ok;
      assert messageData.Items() == meta[..6];
    }
    assert meta[..|meta|] == meta;
  }

  /**
   * WriteMessageToDynamoDbAsync, up to the PutItemAsync call: builds the item
   * in a dictionary and returns what is handed to the table, or the key on
   * which an Add threw (the exception is logged and rethrown).
   */
  method WriteMessageToDynamoDb(record: Option<SqsMessage>, lib: JsonLibrary, now: string)
    returns (outcome: WriteOutcome<AttributeValue>)
    ensures outcome == Item(record, lib, now)
  {
    if record.None? {
      return Ignored;
    }
    var r := record.value;
    var messageData := NewMessageData(r, lib, now);
    ghost var meta := messageData.Items();
    var bodyJson := lib.parse(r.body);
    if bodyJson.Some? {
      ghost var es := Attributes(bodyJson.value, BodyJson, Encoder(lib));
      assert BodyAttributes(r, lib) == Some(es);
      var bodyElements := new Dictionary<AttributeValue>();
      assert KeysOf(bodyElements.Items()) == [];
      var thrown := ExtractJsonElements(bodyJson.value, bodyElements, BodyJson, lib);
      if thrown.Some? {
        return Rethrown(thrown.value);
      }
      var elements := bodyElements.Items();
      assert elements == es by {
        assert es[..|es|] == es;
      }
      thrown := MergeInto(messageData, elements);
      if thrown.Some? {
        return Rethrown(thrown.value);
      }
      assert messageData.Items() == meta + es;
    }
    outcome := Put(messageData.Items());
  }

  // ---------------------------------------------------------------------------
  // What the item holds

  /**
   * The outcome of WriteMessageToDynamoDbAsync, case by case: a null record
   * is ignored; a body that does not parse leaves the metadata alone; a
   * parsed body is merged whole when its paths are distinct, and otherwise
   * the Add of a repeated path throws and is rethrown.
   */
  lemma ItemOutcome(record: Option<SqsMessage>, lib: JsonLibrary, now: string)
    ensures record.None? ==> Item(record, lib, now) == Ignored
    ensures record.Some? && lib.parse(record.value.body).None? ==>
      Item(record, lib, now) == Put(Metadata(record.value, lib, now))
    ensures record.Some? && lib.parse(record.value.body).Some? ==>
      var j := lib.parse(record.value.body).value;
      var ks := KeysOf(FlatNodes(j, BodyJson));
      var item := Item(record, lib, now);
      && !item.Ignored?
      && (item.Put? <==> Distinct(ks))
      && (item.Put? ==> item.item == Metadata(record.value, lib, now) + Attributes(j, BodyJson, Encoder(lib)))
      && (item.Rethrown? ==> exists a, b :: 0 <= a < b < |ks| && ks[a] == item.duplicate && ks[b] == item.duplicate)
  {
    if record.Some? && lib.parse(record.value.body).Some? {
      MetadataKeys(record.value, lib, now);
      BodyOutcome(Metadata(record.value, lib, now), lib.parse(record.value.body).value, Encoder(lib));
    }
  }

  /** A body whose objects have distinct, dot-free member names is always written. */
  lemma WellKeyedBodyIsWritten(r: SqsMessage, lib: JsonLibrary, now: string, j: Json)
    requires lib.parse(r.body) == Some(j) && WellKeyed(j)
    ensures Item(Some(r), lib, now) == Put(Metadata(r, lib, now) + Attributes(j, BodyJson, Encoder(lib)))
  {
    PathsDistinct(j, BodyJson);
    ItemOutcome(Some(r), lib, now);
  }

  /** {"a.b":1,"a":{"b":2}}: the dotted name and the nested member both spell BodyJson.a.b, so the write throws. */
  lemma DottedKeyRethrown(r: SqsMessage, lib: JsonLibrary, now: string)
    requires lib.parse(r.body) == Some(Object([Member("a.b", Number("1")), Member("a", Object([Member("b", Number("2"))]))]))
    ensures Item(Some(r), lib, now) == Rethrown("BodyJson.a.b")
  {
    DottedNameCollides();
    ItemOutcome(Some(r), lib, now);
    var ks := KeysOf(FlatNodes(lib.parse(r.body).value, BodyJson));
    assert !Distinct(ks) by {
      assert ks[0] == ks[1];
    }
  }

  /** A number keeps its literal text exactly, and distinct scalars (strings, numbers, booleans, null) stay distinct. */
  lemma LeafKeepsScalars(j1: Json, j2: Json, lib: JsonLibrary)
    requires !j1.Object? && !j1.Array? && !j2.Object? && !j2.Array?
    ensures Leaf(j1, lib) == Leaf(j2, lib) <==> j1 == j2
  {
  }

  /** An array and a string holding the array's serialised text become the same S attribute. */
  lemma ArrayLooksLikeString(items: seq<Json>, lib: JsonLibrary)
    ensures Leaf(Array(items), lib) == Leaf(String(lib.serialize(Array(items))), lib)
  {
  }
}
