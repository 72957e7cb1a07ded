/**
 * The values `json.loads` produces: Python's None, bool, int, float, str,
 * list and dict. A JSON object becomes a dict, so a key maps to one value.
 */
module Json {

  datatype Json =
    | JNull
    | JBool(b: bool)
    | JInt(n: int)
    /** A number written with a fraction or an exponent (a Python float): mantissa * 10^exponent. */
    | JFloat(mantissa: int, exponent: int)
    | JString(s: string)
    | JArray(items: seq<Json>)
    | JObject(fields: map<string, Json>)
}
