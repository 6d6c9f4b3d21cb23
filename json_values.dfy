/**
 * The parsed JSON tree that both forwarders walk, and the external JSON
 * library (parser and serialiser) they call, given here as plain functions.
 */
module JsonValues {

  datatype Option<+T> = None | Some(value: T)

  /** A parsed JSON value: one constructor per JsonValueKind that a parser can produce. */
  datatype Json =
    | Object(members: seq<Member>)   // properties in enumeration order; names may repeat
    | Array(items: seq<Json>)
    | String(text: string)
    | Number(literal: string)        // the number's raw literal text, as written in the body
    | Bool(truth: bool)
    | Null

  /** One property of an object, as EnumerateObject yields it. */
  datatype Member = Member(name: string, value: Json)

  /**
   * The JSON library the services call. None of it is part of this model:
   * `parse` is Deserialize<JsonElement> (None stands for a JsonException),
   * `serialize` writes a value back as JSON text, and `serializeMap` writes a
   * string-keyed dictionary (message properties or attributes) as JSON text.
   * The serialisers are total, so a serialiser exception is not modelled.
   */
  datatype JsonLibrary = JsonLibrary(
    parse: string -> Option<Json>,
    serialize: Json -> string,
    serializeMap: map<string, Json> -> string)

  /** `s ?? string.Empty` */
  function OrEmpty(s: Option<string>): (r: string)
    ensures s.Some? ==> r == s.value
    ensures s.None? ==> r == ""
  {
    match s
    case Some(v) => v
    case None => ""
  }
}
