/** `sanitizeData` of backend/utils/sanitizeData.js: a shallow copy of an
    object whose string-valued properties are trimmed, then escaped. The
    library's `escape` and `trim` are parameters. */
module Sanitize {
  import opened Json

  /** The sanitised form of one property value. */
  function SanitizeValue(v: JsValue, escape: string -> string, trim: string -> string): JsValue
  {
    if v.JStr? then JStr(escape(trim(v.s))) else v
  }

  /** The sanitised object: same keys, each value sanitised on its own. */
  function Sanitized(data: map<string, JsValue>, escape: string -> string, trim: string -> string)
    : (r: map<string, JsValue>)
    ensures r.Keys == data.Keys
    ensures forall k | k in data && data[k].JStr? :: r[k] == JStr(escape(trim(data[k].s)))
    ensures forall k | k in data && !data[k].JStr? :: r[k] == data[k]
  {
    map k | k in data :: SanitizeValue(data[k], escape, trim)
  }

  /** Each key's result depends only on that key's input value. */
  lemma FieldsIndependent(d1: map<string, JsValue>, d2: map<string, JsValue>, k: string,
                          escape: string -> string, trim: string -> string)
    requires k in d1 && k in d2 && d1[k] == d2[k]
    ensures Sanitized(d1, escape, trim)[k] == Sanitized(d2, escape, trim)[k]
  {
  }

  /** Trimming comes before escaping: the order matters as soon as the two
      functions do not commute on some string. */
  lemma TrimBeforeEscape(data: map<string, JsValue>, k: string, escape: string -> string, trim: string -> string)
    requires k in data && data[k].JStr? && escape(trim(data[k].s)) != trim(escape(data[k].s))
    ensures Sanitized(data, escape, trim)[k] != JStr(trim(escape(data[k].s)))
  {
  }

  /** A JavaScript object whose properties are written in place. */
  class JsObject {
    var fields: map<string, JsValue>

    constructor (fields: map<string, JsValue>)
      ensures this.fields == fields
    {
      this.fields := fields;
    }
  }

  /** `const sanitizedData = { ...data }`, then the `forEach` over its keys.
      The input object is left as it was. */
  method SanitizeData(data: JsObject, escape: string -> string, trim: string -> string)
    returns (sanitizedData: JsObject)
    ensures fresh(sanitizedData)
    ensures sanitizedData.fields == Sanitized(data.fields, escape, trim)
    ensures data.fields == old(data.fields)
  {
    sanitizedData := new JsObject(data.fields);
    var pending := sanitizedData.fields.Keys;
    while pending != {}
      invariant pending <= data.fields.Keys
      invariant sanitizedData.fields.Keys == data.fields.Keys
      invariant forall k | k in data.fields && k in pending :: sanitizedData.fields[k] == data.fields[k]
      invariant forall k | k in data.fields && k !in pending ::
        sanitizedData.fields[k] == SanitizeValue(data.fields[k], escape, trim)
      decreases pending
    {
      var key :| key in pending;
      if sanitizedData.fields[key].JStr? {
        sanitizedData.fields := sanitizedData.fields[key := JStr(escape(trim(sanitizedData.fields[key].s)))];
      }
      pending := pending - {key};
    }
  }
}
