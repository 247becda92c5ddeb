/** The part of serde / serde_json the field modules rely on: JSON values, the
    deserializer's error, and what `#[derive(Deserialize)]` and the standard impls
    accept for strings, booleans, vectors and structs. */
module Serde {
  import opened Results
  import opened Foreign

  /** `serde_json::Value`; an object maps each key to one value. */
  datatype Json =
    | Null
    | Bool(b: bool)
    | Number(n: int)
    | String(s: string)
    | Array(items: seq<Json>)
    | Object(fields: map<string, Json>)

  /** The deserializer errors the field modules can raise. `Malformed` stands for every
      error serde itself reports (wrong JSON type, missing field, wrong array length);
      the others are the crate's `serde::de::Error::custom` errors, one per message. */
  datatype DeError =
    | Malformed
    | ProgramId(programIdError: ParsePubkeyError)           // "Error parsing programId: .."
    | AccountPubkey(accountError: ParsePubkeyError)         // "Error parsing pubkey: .."
    | Data(dataError: Base64Error)                          // "Error decoding data: .."
    | OptionalInstruction(optionalError: DeError)           // "Error deserialize optional instruction: .."
    | VecInstruction(vecError: DeError)                     // "Error deserialize vec instruction: .."
    | InvalidPubkey(pubkeyError: ParsePubkeyError)          // the ParsePubkeyError itself

  /** `String::deserialize`. */
  function AsString(v: Json): (r: Result<string, DeError>)
    ensures r.Ok? <==> v.String?
    ensures r.Ok? ==> r.value == v.s
    ensures r.Err? ==> r.error == Malformed
  {
    if v.String? then Ok(v.s) else Err(Malformed)
  }

  /** `bool::deserialize`. */
  function AsBool(v: Json): (r: Result<bool, DeError>)
    ensures r.Ok? <==> v.Bool?
    ensures r.Ok? ==> r.value == v.b
    ensures r.Err? ==> r.error == Malformed
  {
    if v.Bool? then Ok(v.b) else Err(Malformed)
  }

  /** `Vec<serde_json::Value>::deserialize`. */
  function AsArray(v: Json): (r: Result<seq<Json>, DeError>)
    ensures r.Ok? <==> v.Array?
    ensures r.Ok? ==> r.value == v.items
    ensures r.Err? ==> r.error == Malformed
  {
    if v.Array? then Ok(v.items) else Err(Malformed)
  }

  /** `Vec<String>::deserialize`. */
  function AsStrings(v: Json): (r: Result<seq<string>, DeError>)
    ensures r.Ok? <==> v.Array? && forall i :: 0 <= i < |v.items| ==> v.items[i].String?
    ensures r.Ok? ==> |r.value| == |v.items| && forall i :: 0 <= i < |v.items| ==> r.value[i] == v.items[i].s
    ensures r.Err? ==> r.error == Malformed
  {
    var items :- AsArray(v);
    TryMap(AsString, items)
  }

  /** The field values a derived struct deserializer reads, in declaration order: from
      an object, the value under each field name (a missing one is an error, other keys
      are ignored); from an array, its elements, of which there must be exactly one per
      field. */
  function StructFields(v: Json, names: seq<string>): (r: Result<seq<Json>, DeError>)
    ensures r.Ok? ==> |r.value| == |names|
    ensures r.Ok? <==> (v.Array? && |v.items| == |names|) || (v.Object? && forall i :: 0 <= i < |names| ==> names[i] in v.fields)
    ensures r.Ok? && v.Object? ==> forall i :: 0 <= i < |names| ==> r.value[i] == v.fields[names[i]]
    ensures r.Ok? && v.Array? ==> r.value == v.items
  {
    match v
    case Object(m) =>
      if forall i :: 0 <= i < |names| ==> names[i] in m
      then Ok(seq(|names|, i requires 0 <= i < |names| => m[names[i]]))
      else Err(Malformed)
    case Array(items) =>
      if |items| == |names| then Ok(items) else Err(Malformed)
    case _ => Err(Malformed)
  }
}
