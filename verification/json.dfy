/** JSON values as the product routes store them in TEXT columns.  The
    text grammar is not modelled: a column written by `json.dumps` holds the
    encoded value itself, and `json.loads` reads it back. */
module Json {

  datatype JsonValue =
    | JNull
    | JBool(b: bool)
    | JInt(i: int)
    | JString(s: string)
    | JArray(items: seq<JsonValue>)
    | JObject(fields: map<string, JsonValue>)

  /** A nullable TEXT column holding JSON: SQL NULL, the empty string (which
      `json.dumps` never produces, but a row written by other means may hold),
      or an encoded value. */
  datatype TextColumn = Null | Empty | Encoded(value: JsonValue)

  /** Python truthiness of the column's value: NULL and "" are false. */
  predicate Truthy(c: TextColumn) {
    c.Encoded?
  }

  /** `json.dumps`: every encoding, even that of `null`, is non-empty text. */
  function Dumps(v: JsonValue): (c: TextColumn)
    ensures Truthy(c)
  {
    Encoded(v)
  }

  /** `json.loads` of a non-empty column. */
  function Loads(c: TextColumn): (v: JsonValue)
    requires Truthy(c)
    ensures Dumps(v) == c
  {
    c.value
  }

  /** `json.loads(col) if col else default`. */
  function LoadsOr(c: TextColumn, default: JsonValue): (v: JsonValue)
    ensures !Truthy(c) ==> v == default
  {
    if Truthy(c) then Loads(c) else default
  }

  /** Decoding an encoding gives the value back, whatever it is. */
  lemma LoadsDumps(v: JsonValue)
    ensures LoadsOr(Dumps(v), JNull) == v
    ensures forall d :: LoadsOr(Dumps(v), d) == v
  {
  }

  /** Distinct values never share an encoding. */
  lemma DumpsInjective(v: JsonValue, w: JsonValue)
    requires Dumps(v) == Dumps(w)
    ensures v == w
  {
  }
}
