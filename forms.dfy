/**
 * Reading the submitted form: `formData.get(key) as string` followed by the
 * coercions the actions apply to it (`!v`, `v || null`, `parseInt(v) || 0`,
 * `v === 'true'`).
 */
module Forms {
  import opened Wrappers
  import opened Strings

  /** The text fields of a submitted form, by field name. */
  type FormData = map<string, string>

  /** `formData.get(key)`: the field's text, or null when the form has no such field. */
  function Get(form: FormData, key: string): Option<string> {
    if key in form then Some(form[key]) else None
  }

  /** `!v` for a value read from the form: missing or the empty string. */
  predicate Blank(v: Option<string>) {
    v.None? || v.value == ""
  }

  /** `v || null`: a blank value becomes null, anything else is kept as it is. */
  function OrNull(v: Option<string>): (r: Option<string>)
    ensures r.None? <==> Blank(v)
    ensures r.Some? ==> r == v
    ensures Normalised(r)
  {
    if Blank(v) then None else v
  }

  /** What a nullable column holds after `v || null`: null or a non-empty string. */
  predicate Normalised(v: Option<string>) {
    v.None? || v.value != ""
  }

  /**
   * `parseInt(v as string) || 0`. A missing field is the string "null",
   * which does not parse, so it gives 0 like any other text that is not a number.
   */
  function IntOrZero(v: Option<string>): (n: int)
    ensures n == if v.Some? && ParseInt(v.value).Some? then ParseInt(v.value).value else 0
  {
    assert ParseInt("null").None? by {
      var text := "null";
      assert text[0] == 'n' && !IsWhiteSpace('n') && !IsDigit('n', 10);
    }
    match ParseInt(if v.Some? then v.value else "null")
    case None => 0
    case Some(n) => n
  }

  /** A nullable column filled from a form field by `v || null`: null exactly when the field is blank, the field's text otherwise. */
  predicate NullOrField(column: Option<string>, field: Option<string>) {
    (column.None? <==> Blank(field)) && (column.Some? ==> column == field)
  }

  /** An integer column filled from a form field by `parseInt(v) || 0`: the parsed number, or 0 when the text is missing or not a number. */
  predicate ParsedOrZero(n: int, field: Option<string>) {
    n == if field.Some? && ParseInt(field.value).Some? then ParseInt(field.value).value else 0
  }

  /** `v === 'true'`. */
  predicate IsTrueText(v: Option<string>) {
    v == Some("true")
  }

  /** A sort order the admin form writes as decimal text is read back exactly. */
  lemma IntOrZeroReadsText(n: int)
    ensures IntOrZero(Some(IntText(n))) == n
  {
    ParseIntText(n);
  }
}
