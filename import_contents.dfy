/**
 * `normalizeMinContents`: accept a fetched JSON value when it, or the object
 * under its `data` field, carries string `name`, `mygithub` and `imagesrc`
 * fields.
 */
module ImportContents {
  import opened Common

  /** A parsed JSON value. */
  datatype Json =
    | JNull
    | JBool(b: bool)
    | JNumber(n: real)
    | JString(s: string)
    | JArray(items: seq<Json>)
    | JObject(fields: map<string, Json>)

  /** JavaScript truthiness of a parsed value (NaN cannot come out of JSON). */
  predicate Truthy(j: Json) {
    match j
    case JNull => false
    case JBool(b) => b
    case JNumber(n) => n != 0.0
    case JString(s) => s != ""
    case _ => true
  }

  /** `typeof j === "object"`: true of null, arrays and objects. */
  predicate TypeofObject(j: Json) {
    j.JNull? || j.JArray? || j.JObject?
  }

  /** `j[key]`; only objects have the named fields looked up here. */
  function Field(j: Json, key: string): Option<Json> {
    if j.JObject? && key in j.fields then Some(j.fields[key]) else None
  }

  predicate IsStringField(j: Json, key: string) {
    Field(j, key).Some? && Field(j, key).value.JString?
  }

  /** `isMinContentsLike`: the three fields are strings; nothing else is looked at. */
  predicate IsMinContentsLike(j: Json)
    // Only an object qualifies, so a qualifying value always passes the truthy-object guard.
    ensures IsMinContentsLike(j) ==> j.JObject? && Truthy(j) && TypeofObject(j)
  {
    IsStringField(j, "name") && IsStringField(j, "mygithub") && IsStringField(j, "imagesrc")
  }

  /** The object under `data`, when it is truthy and of type object. */
  function Nested(j: Json): (d: Option<Json>)
    ensures d.Some? ==> Field(j, "data") == d && (d.value.JObject? || d.value.JArray?)
  {
    var d := Field(j, "data");
    if d.Some? && Truthy(d.value) && TypeofObject(d.value) then d else None
  }

  /** `None` stands for the `null` result. */
  function NormalizeMinContents(j: Json): (r: Option<Json>)
    // Whatever is returned has the three string fields.
    ensures r.Some? ==> IsMinContentsLike(r.value)
    // It is the input itself or the object directly under its `data` field.
    ensures r.Some? ==> r.value == j || Some(r.value) == Field(j, "data")
    // The input is preferred, even when its `data` would qualify too.
    ensures IsMinContentsLike(j) ==> r == Some(j)
    // Exactly the inputs that qualify, at the top or one level down, give a result.
    ensures r.Some? <==> IsMinContentsLike(j) || (Nested(j).Some? && IsMinContentsLike(Nested(j).value))
  {
    if !Truthy(j) || !TypeofObject(j) then None
    else if IsMinContentsLike(j) then Some(j)
    else
      var d := Nested(j);
      if d.Some? && IsMinContentsLike(d.value) then d else None
  }

  /** A field other than the three and `data` never changes the outcome. */
  lemma OtherFieldsIgnored(fields: map<string, Json>, key: string, v: Json)
    requires key !in {"name", "mygithub", "imagesrc", "data"}
    ensures NormalizeMinContents(JObject(fields[key := v])).Some? == NormalizeMinContents(JObject(fields)).Some?
  {
    var j, j' := JObject(fields), JObject(fields[key := v]);
    assert Field(j', "name") == Field(j, "name") && Field(j', "mygithub") == Field(j, "mygithub");
    assert Field(j', "imagesrc") == Field(j, "imagesrc") && Field(j', "data") == Field(j, "data");
  }

  /** Only one level is examined: contents two levels down are not found. */
  lemma OneLevelOnly(inner: Json)
    requires IsMinContentsLike(inner)
    ensures NormalizeMinContents(JObject(map["data" := JObject(map["data" := inner])])).None?
  {
    var middle := JObject(map["data" := inner]);
    assert !IsStringField(middle, "name");
    assert !IsStringField(JObject(map["data" := middle]), "name");
  }

  /** Falsy or non-object input, and arrays, give `null`. */
  lemma NonObjectsRejected(j: Json)
    requires !j.JObject?
    ensures NormalizeMinContents(j).None?
  {
  }
}
