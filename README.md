# Queue message to document store: the record builders

This project models the part of the aws-to-azure forwarders that computes
something:

- **SQS to DynamoDB**: `DynamoDbService`.
- **Service Bus to Cosmos DB**: `CosmosDbService`.

Each service takes one message and builds one flat record, in a .NET
`Dictionary<string, …>`. The record has two parts:

- **Metadata**: the message id, the raw body, a time stamp and the other
  fields.
- **Flattened body**: when the body parses as JSON, `ExtractJsonElements`
  walks it. Every non-object node becomes one entry under its dotted path
  (`BodyJson.order.id`). An array is one node; it is stored as its
  serialised text and not entered.

The services differ only in how a leaf becomes a store value:

- DynamoDB uses `AttributeValue` with `S`, `N` (the raw literal), `BOOL` and
  `NULL`.
- Cosmos DB uses plain objects: string, decimal, bool and null.

## Modules

- `JsonValues`: the parsed JSON tree. The JSON library (parser and
  serialisers) is given as plain functions in a `JsonLibrary` value. A parse
  that yields `None` stands for a `JsonException`.
- `Dictionaries`: the .NET dictionary as a class.
  - `keys` records insertion order; `values` holds the mapping.
  - `Add` fails, changing nothing, on a key that is already present.
  - `Admitted` tells how far a run of `Add`s gets before the first one that
    throws.
- `Flatten`: what the recursive walk reaches, independent of the store.
  - `FlatNodes` gives the (path, node) pairs, in walk order.
  - Lemmas about paths, counts, soundness and completeness, and about when
    the paths are distinct.
- `Encoding`: the walk's entries for any leaf encoding (`Attributes`), and
  the lemmas the recursive `ExtractJsonElements` methods are proved with.
- `Records`: how a record is assembled, and what a written record is.
  - The metadata comes first. Then the body's entries are added to an empty
    dictionary, then copied into the record with the `foreach` merge loop
    (`MergeInto`).
  - An `Add` that throws is not a `JsonException`, so it is logged and
    rethrown (`Rethrown`).
  - A null message is `Ignored`.
- `DynamoDbService` and `CosmosDbService`: each has:
  - its leaf encoding;
  - its own `ExtractJsonElements` method over a `Dictionary` object;
  - the record-building method;
  - the specification function that method is proved against (`Item` and
    `Document`);
  - lemmas about that function.

## Behaviour that may surprise

Paths are not always distinct, and the code does not deduplicate them:

- A member name containing a dot collides with a nested member. In
  `{"a.b":1,"a":{"b":2}}`, both spell `BodyJson.a.b`.
- An object may repeat a member name.

In both cases `Dictionary.Add` throws `ArgumentException`, and the write
fails. `DottedKeyRethrown` shows this, and `ItemOutcome` and
`DocumentOutcome` state exactly when it happens. The code is followed here,
not the reading that the flattened paths are always unique. Uniqueness holds
only for well-keyed bodies (`WellKeyedBodyIsWritten`).

`element.GetString() ?? string.Empty` never falls back to the empty string.
`GetString` returns null only for a JSON null, and a JSON null takes its own
branch. So a string leaf is stored as itself.

## Model

| member | source | states |
|---|---|---|
| JsonValues.OrEmpty | src/azure/ServiceBusToCosmosDbFunction/Services/CosmosDbService.cs:67-69 | `s ?? string.Empty`: the string when there is one, otherwise "" |
| Dictionaries.Dictionary.Add | src/SqsToDynamoDbLambda/Services/DynamoDbService.cs:78 | Add succeeds exactly when the key is new, and then appends the entry; otherwise (the ArgumentException) nothing changes |
| Dictionaries.Dictionary.constructor | src/SqsToDynamoDbLambda/Services/DynamoDbService.cs:73 | a new dictionary is empty |
| Dictionaries.AdmittedAll | src/SqsToDynamoDbLambda/Services/DynamoDbService.cs:76-79 | a run of Adds goes through whole exactly when its keys are distinct and none is present yet |
| Dictionaries.AdmittedStops | src/SqsToDynamoDbLambda/Services/DynamoDbService.cs:76-79 | the Add that throws has a key already present or added earlier in the same run |
| Dictionaries.AdmittedAppend | src/SqsToDynamoDbLambda/Services/DynamoDbService.cs:76-79 | where a run of Adds stops, in terms of its two halves |
| Flatten.FlatShape | src/SqsToDynamoDbLambda/Services/DynamoDbService.cs:108-140 | every node the walk reaches is a non-object, keyed by the prefix itself or by a path under `prefix.` |
| Flatten.MembersSplit | src/SqsToDynamoDbLambda/Services/DynamoDbService.cs:113-117 | members are walked in enumeration order: splitting the member list splits the entries |
| Flatten.FlatCount | src/SqsToDynamoDbLambda/Services/DynamoDbService.cs:108-140 | the walk adds exactly LeafCount entries: an array counts one, an empty object none |
| Flatten.RouteOf | src/SqsToDynamoDbLambda/Services/DynamoDbService.cs:108-140 | every entry is a non-object node reachable through objects alone, keyed by its dotted path |
| Flatten.EntryAt | src/SqsToDynamoDbLambda/Services/DynamoDbService.cs:108-140 | every non-object node reachable through objects alone has its entry under its dotted path |
| Flatten.PathsDistinct | src/azure/ServiceBusToCosmosDbFunction/Services/CosmosDbService.cs:134-140 | when member names are distinct and dot-free, no two entries share a path |
| Flatten.DottedNameCollides | src/azure/ServiceBusToCosmosDbFunction/Services/CosmosDbService.cs:137-138 | `{"a.b":1,"a":{"b":2}}` yields the path BodyJson.a.b twice |
| Flatten.MixedDocumentNodes | src/azure/ServiceBusToCosmosDbFunction/Services/CosmosDbService.cs:130-161 | the order document reaches exactly four nodes, the array as one of them |
| Encoding.ObjectAttributes | src/azure/ServiceBusToCosmosDbFunction/Services/CosmosDbService.cs:134-140 | an object adds no entry of its own, only its members' entries; an empty object adds none |
| Encoding.ScalarAttributes | src/azure/ServiceBusToCosmosDbFunction/Services/CosmosDbService.cs:141-157 | a non-object node adds one entry, at the current prefix; a scalar root is one entry keyed BodyJson |
| Encoding.MembersAttributesStep | src/azure/ServiceBusToCosmosDbFunction/Services/CosmosDbService.cs:135-139 | each member is visited with prefix `prefix.name`, after the members before it |
| Encoding.MemberVisited | src/azure/ServiceBusToCosmosDbFunction/Services/CosmosDbService.cs:135-139 | one pass of the member loop: either the member's entries all go in, or the object's walk throws at that same Add |
| Encoding.AttributesOfNodes | src/SqsToDynamoDbLambda/Services/DynamoDbService.cs:108-140 | the walk's entries are its nodes' paths, each under the prefix, each with its node's encoded value |
| Encoding.AttributesHoldEveryLeaf | src/SqsToDynamoDbLambda/Services/DynamoDbService.cs:108-140 | every reachable leaf is among the entries with its encoded value (nothing dropped) |
| Encoding.AttributeOrigin | src/SqsToDynamoDbLambda/Services/DynamoDbService.cs:108-140 | every entry is a reachable leaf with its encoded value (nothing invented) |
| Encoding.AttributesCount | src/SqsToDynamoDbLambda/Services/DynamoDbService.cs:108-140 | there is one entry per leaf reachable through objects |
| Records.AssembledRecord | src/SqsToDynamoDbLambda/Services/DynamoDbService.cs:49-102 | a written record starts with the metadata unchanged and holds no key twice; an exception only ever names a body key |
| Records.MergeNeverThrows | src/SqsToDynamoDbLambda/Services/DynamoDbService.cs:76-79 | with metadata keys outside `BodyJson`, the merge loop never throws: distinct body paths are merged whole, otherwise the walk itself threw |
| Records.BodyOutcome | src/SqsToDynamoDbLambda/Services/DynamoDbService.cs:68-85 | a parsed body gives metadata + entries exactly when its paths are distinct; otherwise a repeated path is rethrown |
| Records.MergeInto | src/SqsToDynamoDbLambda/Services/DynamoDbService.cs:76-79 | the foreach copies entries with Add in order, up to the first key already present, which it reports |
| DynamoDbService.Leaf | src/SqsToDynamoDbLambda/Services/DynamoDbService.cs:119-135 | arrays and strings become S (the array's serialised text, the string itself), numbers N with the raw literal, booleans BOOL with the same truth, null NULL=true |
| DynamoDbService.Encoder | src/SqsToDynamoDbLambda/Services/DynamoDbService.cs:119-135 | the DynamoDB leaf encoding covers every non-object node |
| DynamoDbService.LeafKeepsScalars | src/SqsToDynamoDbLambda/Services/DynamoDbService.cs:123-135 | two scalar leaves get the same attribute exactly when they are the same value: the number literal is kept unchanged |
| DynamoDbService.ArrayLooksLikeString | src/SqsToDynamoDbLambda/Services/DynamoDbService.cs:119-125 | an array and a string holding its serialised text give the same S attribute |
| DynamoDbService.ExtractJsonElements | src/SqsToDynamoDbLambda/Services/DynamoDbService.cs:108-140 | adds the body's entries in walk order up to the first repeated key, and reports that key |
| DynamoDbService.MetadataKeys | src/SqsToDynamoDbLambda/Services/DynamoDbService.cs:52-66 | the metadata keys are distinct and none lies under BodyJson |
| DynamoDbService.MetadataFields | src/SqsToDynamoDbLambda/Services/DynamoDbService.cs:52-66 | the item always holds MessageId, ReceiptHandle, the raw Body, Md5OfBody and Timestamp; MessageAttributes, holding the serialised attributes, exactly when the message has some |
| DynamoDbService.NewMessageData | src/SqsToDynamoDbLambda/Services/DynamoDbService.cs:52-66 | the initializer and the conditional Add build exactly the metadata, without throwing |
| DynamoDbService.WriteMessageToDynamoDb | src/SqsToDynamoDbLambda/Services/DynamoDbService.cs:41-103 | the method hands the table exactly the item `Item` specifies, or rethrows on the key `Item` names |
| DynamoDbService.ItemOutcome | src/SqsToDynamoDbLambda/Services/DynamoDbService.cs:43-102 | null record ignored; unparsable body keeps only the metadata; parsed body merged whole exactly when its paths are distinct, else a repeated path is rethrown |
| DynamoDbService.WellKeyedBodyIsWritten | src/SqsToDynamoDbLambda/Services/DynamoDbService.cs:68-85 | a body with distinct dot-free member names is always written, metadata then entries (serialisers taken to return; see Left out) |
| DynamoDbService.DottedKeyRethrown | src/SqsToDynamoDbLambda/Services/DynamoDbService.cs:98-102 | `{"a.b":1,"a":{"b":2}}` makes the write rethrow on BodyJson.a.b |
| CosmosDbService.Leaf | src/azure/ServiceBusToCosmosDbFunction/Services/CosmosDbService.cs:141-157 | arrays and strings become text (the array's serialised text, the string itself), numbers decimals, booleans the same bool, JSON null null |
| CosmosDbService.Encoder | src/azure/ServiceBusToCosmosDbFunction/Services/CosmosDbService.cs:141-157 | the Cosmos leaf encoding covers every non-object node |
| CosmosDbService.ArrayLooksLikeString | src/azure/ServiceBusToCosmosDbFunction/Services/CosmosDbService.cs:141-147 | an array and a string holding its serialised text give the same document value |
| CosmosDbService.ExtractJsonElements | src/azure/ServiceBusToCosmosDbFunction/Services/CosmosDbService.cs:130-161 | adds the body's entries in walk order up to the first repeated key, and reports that key |
| CosmosDbService.MetadataKeys | src/azure/ServiceBusToCosmosDbFunction/Services/CosmosDbService.cs:62-79 | the metadata keys are distinct and none lies under BodyJson |
| CosmosDbService.MetadataFields | src/azure/ServiceBusToCosmosDbFunction/Services/CosmosDbService.cs:62-79 | id and MessageId both hold the message id, Body the raw text; ContentType, CorrelationId and Label (the Subject) hold the given value, or "" when it is missing; TimeToLive and Timestamp are stored; ApplicationProperties, holding the serialised properties, exactly when the message has some |
| CosmosDbService.NewMessageDocument | src/azure/ServiceBusToCosmosDbFunction/Services/CosmosDbService.cs:62-79 | the initializer and the conditional Add build exactly the metadata, without throwing |
| CosmosDbService.WriteMessageToCosmosDb | src/azure/ServiceBusToCosmosDbFunction/Services/CosmosDbService.cs:48-109 | the method hands the container exactly the document `Document` specifies, or rethrows on the key `Document` names |
| CosmosDbService.DocumentOutcome | src/azure/ServiceBusToCosmosDbFunction/Services/CosmosDbService.cs:50-107 | null message ignored; unparsable body keeps only the metadata; parsed body merged whole exactly when its paths are distinct, else a repeated path is rethrown |
| CosmosDbService.WellKeyedBodyIsWritten | src/azure/ServiceBusToCosmosDbFunction/Services/CosmosDbService.cs:82-98 | a body with distinct dot-free member names is always written, metadata then entries (serialisers taken to return, numbers kept as literals; see Left out) |
| CosmosDbService.DottedKeyRethrown | src/azure/ServiceBusToCosmosDbFunction/Services/CosmosDbService.cs:104-108 | `{"a.b":1,"a":{"b":2}}` makes the write rethrow on BodyJson.a.b |
| CosmosDbService.MixedDocument | src/azure/ServiceBusToCosmosDbFunction/Services/CosmosDbService.cs:130-161 | the order document gives exactly four entries: a decimal, the array's text, a bool and null |

## Left out

- JSON parsing and serialisation (`JsonSerializer.Deserialize<JsonElement>`, `JsonSerializer.Serialize`) are foreign library calls. They are the `parse`, `serialize` and `serializeMap` functions of `JsonLibrary`. Nothing is assumed about what they return. But `serialize` and `serializeMap` are total, so the model takes them to always return.
  - A serialiser exception is not modelled. `JsonSerializer.Serialize` of the message attributes (DynamoDbService.cs line 64) or of the application properties (CosmosDbService.cs line 77) can throw, for example on an SQS binary attribute or a non-finite double. That call sits outside the `JsonException` catch, so the source rethrows the exception. The same holds for serialising an array inside `ExtractJsonElements`.
- DynamoDbService.ItemOutcome: holds only because the serialisers in the model always return. When serialising the message's attributes throws, the source rethrows instead of writing the record.
- DynamoDbService.WellKeyedBodyIsWritten: "always written" holds only because the serialisers in the model always return. When serialising the message's attributes throws, the source rethrows instead of writing the item.
- DynamoDbService.MetadataFields: holds only because the serialisers in the model always return. When serialising the message's attributes throws, the source rethrows instead of writing the record.
- CosmosDbService.DocumentOutcome: holds only because the serialisers in the model always return and a number is kept as its literal. When serialising the message's application properties throws, the source rethrows instead of writing the record. The same happens when `GetDecimal` throws on a number outside the range of .NET `decimal`, such as a 30-digit integer. That `FormatException` is not a `JsonException`, so the source rethrows it, while the model writes the literal.
- CosmosDbService.WellKeyedBodyIsWritten: "always written" holds only because the serialisers in the model always return and a number is kept as its literal. The source rethrows instead of writing in two cases: when serialising the application properties throws, and when `GetDecimal` throws on a number outside the range of .NET `decimal`.
- CosmosDbService.MetadataFields: holds only because the serialisers in the model always return. When serialising the message's application properties throws, the source rethrows instead of writing the record.
- CosmosDbService.Leaf: `GetDecimal` is not modelled. A number is kept as the literal it was written with. Two literals of the same decimal value (`1e2`, `100`) therefore stay distinct here. A literal outside the range of .NET `decimal` makes `GetDecimal` throw. That exception is rethrown in the source, but the model stores the literal.
- The `default` branch of both `ExtractJsonElements` (raw text) applies only to `JsonValueKind.Undefined`. A parsed value never has that kind, and `Json` has no constructor for it.
- Store access is not modelled: `PutItemAsync`, `CreateItemAsync`, `EnsureContainerAsync` (with the lazily set `_container` field), the clients and the constructors that read configuration. A failure there is rethrown in the source; the model stops at the record handed to the store.
- `DateTime.UtcNow.ToString("o")` is the parameter `now`. `TimeToLive.TotalSeconds` is a field of the message (`timeToLiveSeconds`). Floating point is not otherwise modelled.
- Logging is not modelled.
- The trigger functions and their retry, complete and abandon handling are not modelled.
- Null string fields of a message (for example a null SQS `Body`, which makes `Deserialize` throw `ArgumentNullException`, which is then rethrown) are not modelled. Message fields are plain strings, except the ones the source tests for null.
- Both services are modules, not classes: their only state is the store client and names from configuration, and those are out of scope.
- The dictionaries a message carries (`MessageAttributes`, `ApplicationProperties`) are only serialised and counted, so their values are `Json` trees handed to `serializeMap`. They are Dafny maps, so their enumeration order is not modelled: two dictionaries with the same pairs in a different order serialise to the same text here, while `JsonSerializer.Serialize` writes them in enumeration order.
