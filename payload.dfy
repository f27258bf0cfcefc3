/**
 * The values the admin forms put in their row payloads, and the write a form
 * submission issues. A payload is the JavaScript object handed to
 * `.update(...)` or `.insert(...)`; each form describes its own as a record
 * with one field per column it may carry.
 */
module Payloads {
  import opened Wrappers

  /** A JSON value of a payload column. */
  datatype Value =
    | Null
    | Text(text: string)
    | Flag(flag: bool)
    | ParsedFloat(source: string)  // `parseFloat(source)`; the number itself is not modelled
    | ParsedInt(source: string)    // `parseInt(source)`; the number itself is not modelled
    | TextList(items: seq<string>)

  /** The write a submission issues: an update of the row with that id, or an insert. */
  datatype Mutation<P> =
    | Update(table: string, id: string, payload: P)
    | Insert(table: string, payload: P)

  /** `s || null`: the empty string is sent as null, any other text as itself. */
  function NullIfEmpty(s: string): (v: Value)
    ensures v == Null <==> s == ""
    ensures s != "" ==> v == Text(s)
  {
    if s == "" then Null else Text(s)
  }

  /** `s ? parseFloat(s) : null`. */
  function FloatOrNull(s: string): (v: Value)
    ensures v == Null <==> s == ""
    ensures s != "" ==> v == ParsedFloat(s)
  {
    if s == "" then Null else ParsedFloat(s)
  }

  /** `s ? parseInt(s) : null`. */
  function IntOrNull(s: string): (v: Value)
    ensures v == Null <==> s == ""
    ensures s != "" ==> v == ParsedInt(s)
  {
    if s == "" then Null else ParsedInt(s)
  }

  /** `x || ''` on a nullable text column, as the form prefill reads it. */
  function OrEmpty(o: Option<string>): (s: string)
    ensures o.None? ==> s == ""
    ensures o.Some? ==> s == o.value
  {
    if o.None? then "" else o.value
  }

  /** How a nullable text column is written back: null, and the empty string, as null. */
  function StoredText(o: Option<string>): (v: Value)
    ensures v == Null <==> o.None? || o.value == ""
  {
    if o.None? || o.value == "" then Null else Text(o.value)
  }

  /** How a nullable number column, prefilled as its text, is written back by `parseFloat`. */
  function StoredFloat(o: Option<string>): (v: Value)
    ensures v == Null <==> o.None? || o.value == ""
  {
    if o.None? || o.value == "" then Null else ParsedFloat(o.value)
  }

  /** How a nullable number column, prefilled as its text, is written back by `parseInt`. */
  function StoredInt(o: Option<string>): (v: Value)
    ensures v == Null <==> o.None? || o.value == ""
  {
    if o.None? || o.value == "" then Null else ParsedInt(o.value)
  }

  /**
   * Prefilling a nullable text column and sending it back unchanged writes
   * what the column held, except that an empty string becomes null.
   */
  lemma PrefillThenSend(o: Option<string>)
    ensures NullIfEmpty(OrEmpty(o)) == StoredText(o)
    ensures o.Some? && o.value != "" ==> NullIfEmpty(OrEmpty(o)) == Text(o.value)
  {
  }
}
