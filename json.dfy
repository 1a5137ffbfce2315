/** An already-parsed JSON document and the JsonElement accessors the import uses
    (GetProperty, GetString, GetDecimal, EnumerateArray). Each accessor returns the
    exception .NET would throw as an error value. */
module Json {
  import opened Wrappers

  /** A JSON value. Object members keep their textual order, duplicates included. */
  datatype Json =
    | Null
    | Bool(b: bool)
    | Number(n: real)
    | Str(s: string)
    | Arr(elements: seq<Json>)
    | Obj(members: seq<(string, Json)>)

  /** The failures of JsonDocument.Parse and of the JsonElement accessors. */
  datatype JsonError =
    | Malformed                      // JsonDocument.Parse rejects the text (JsonException)
    | NotAnArray                     // EnumerateArray on a non-array (InvalidOperationException)
    | NotAnObject                    // GetProperty on a non-object (InvalidOperationException)
    | MissingProperty(name: string)  // GetProperty finds no such member (KeyNotFoundException)
    | NotAString                     // GetString on neither a string nor null (InvalidOperationException)
    | NotANumber                     // GetDecimal on a non-number (InvalidOperationException)
    | DecimalOverflow                // GetDecimal on a number beyond decimal's range (FormatException)

  /** decimal.MaxValue, 2^96 - 1. */
  const DecimalMaxValue: real := 79228162514264337593543950335.0

  /** The value of the last member called name: JsonElement matches names ordinally
      (case-sensitively), and when a name repeats the last definition wins. */
  function Lookup(members: seq<(string, Json)>, name: string): (r: Option<Json>)
    ensures r.None? <==> forall i :: 0 <= i < |members| ==> members[i].0 != name
    ensures r.Some? ==>
      exists i :: 0 <= i < |members| && members[i] == (name, r.value) &&
        forall j :: i < j < |members| ==> members[j].0 != name
    decreases |members|
  {
    if members == [] then None
    else if members[|members| - 1].0 == name then Some(members[|members| - 1].1)
    else Lookup(members[..|members| - 1], name)
  }

  /** The member named name of an object, None if e is not an object or has no such member. */
  function Member(e: Json, name: string): Option<Json> {
    if e.Obj? then Lookup(e.members, name) else None
  }

  /** GetProperty: the member's value; an error on a non-object or a missing member. */
  function GetProperty(e: Json, name: string): (r: Result<Json, JsonError>)
    ensures !e.Obj? ==> r == Err(NotAnObject)
    ensures e.Obj? && Member(e, name).None? ==> r == Err(MissingProperty(name))
    ensures r.Ok? <==> Member(e, name).Some?
    ensures r.Ok? ==> Member(e, name) == Some(r.value)
  {
    if !e.Obj? then Err(NotAnObject)
    else match Lookup(e.members, name)
      case None => Err(MissingProperty(name))
      case Some(v) => Ok(v)
  }

  /** GetString: a string, or None for JSON null. */
  function GetString(e: Json): (r: Result<Option<string>, JsonError>)
    ensures r.Ok? <==> e.Str? || e.Null?
    ensures r.Err? ==> r == Err(NotAString)
    ensures r.Ok? ==> (r.value.None? <==> e == Null)
    ensures r.Ok? && r.value.Some? ==> e == Str(r.value.value)
  {
    match e
    case Str(s) => Ok(Some(s))
    case Null => Ok(None)
    case _ => Err(NotAString)
  }

  /** The JSON value GetString reads back as s. */
  function JsonOfString(s: Option<string>): (j: Json)
    ensures GetString(j) == Ok(s)
  {
    match s
    case None => Null
    case Some(v) => Str(v)
  }

  /** GetDecimal: the exact value of a number within decimal's range. */
  function GetDecimal(e: Json): (r: Result<real, JsonError>)
    ensures !e.Number? ==> r == Err(NotANumber)
    ensures r.Ok? <==> e.Number? && -DecimalMaxValue <= e.n <= DecimalMaxValue
    ensures r.Ok? ==> e == Number(r.value)
  {
    match e
    case Number(n) => if -DecimalMaxValue <= n <= DecimalMaxValue then Ok(n) else Err(DecimalOverflow)
    case _ => Err(NotANumber)
  }

  /** EnumerateArray: the elements of an array in order; an error on anything else. */
  function EnumerateArray(e: Json): (r: Result<seq<Json>, JsonError>)
    ensures r.Ok? <==> e.Arr?
    ensures r.Err? ==> r == Err(NotAnArray)
    ensures r.Ok? ==> e == Arr(r.value)
  {
    match e
    case Arr(elements) => Ok(elements)
    case _ => Err(NotAnArray)
  }
}
