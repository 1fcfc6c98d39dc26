/** JavaScript values as the request handlers see them, and the reply a
    handler sends back (`res.status(code).json(body)`). */
module Json {

  /** A JavaScript value. Numbers are integers in this model. `JUndefined`
      stands for `undefined`, which a parsed JSON document never holds but
      which an object property can (an absent property also reads as it). */
  datatype JsValue =
    | JUndefined
    | JNull
    | JBool(b: bool)
    | JNum(n: int)
    | JStr(s: string)
    | JArr(items: seq<JsValue>)
    | JObj(fields: map<string, JsValue>)

  /** A reply: the HTTP status code and the JSON body. */
  datatype Reply = Reply(status: int, body: JsValue)

  /** `obj[key]` on a plain object: an absent property reads as `undefined`. */
  function Get(fields: map<string, JsValue>, key: string): (v: JsValue)
    ensures key in fields ==> v == fields[key]
    ensures key !in fields ==> v == JUndefined
  {
    if key in fields then fields[key] else JUndefined
  }

  /** Does `key` occur as a property name anywhere inside `v`, at any depth? */
  predicate HasKeyDeep(v: JsValue, key: string)
  {
    match v
    case JArr(items) => exists i | 0 <= i < |items| :: HasKeyDeep(items[i], key)
    case JObj(fields) => key in fields || exists k | k in fields :: HasKeyDeep(fields[k], key)
    case _ => false
  }
}
