/** An already-decoded JSON document, as `encoding/json` hands it to the
    bookmark walkers (`map[string]interface{}`, `[]interface{}`, ...). */
module Json {

  /** Numbers are decoded to float64 by the source; the walkers never inspect
      them, so a real stands in for the value. */
  datatype JValue =
    | JNull
    | JBool(b: bool)
    | JNumber(n: real)
    | JString(str: string)
    | JArray(items: seq<JValue>)
    | JObject(fields: map<string, JValue>)

  /** The comma-ok assertion `m[key].(string)` succeeds. */
  predicate HasString(fields: map<string, JValue>, key: string) {
    key in fields && fields[key].JString?
  }

  /** The string under `key`; only meaningful when `HasString` holds. */
  function StringOf(fields: map<string, JValue>, key: string): string
    requires HasString(fields, key)
  {
    fields[key].str
  }

  /** The comma-ok assertion `m["children"].([]interface{})` succeeds. */
  predicate HasChildren(fields: map<string, JValue>) {
    "children" in fields && fields["children"].JArray?
  }
}
