/**
 * Request fields as the handlers see them after Express has decoded the request.
 *
 * JavaScript's loose coercions (`isNaN`, `Number`, `parseInt`) and SQLite's type affinity are not
 * re-implemented: a field arrives already classified, and the handlers branch on that
 * classification exactly as the source branches on the coerced values.
 */
module Params {
  import opened Wrappers
  import opened Dates

  /**
   * A user id taken from a path parameter or a body field.
   * `numeric` is `!isNaN(text)`; `key` is the integer user id that SQLite's `id = ?` comparison
   * matches for this text, if any (for "7" it is 7, for "abc" or "1.5" there is none).
   */
  datatype IdParam =
    | Absent
    | Given(text: string, numeric: bool, key: Option<int>)

  /** The id a `SELECT * FROM users WHERE id = ?` lookup compares against; an absent value binds NULL. */
  function LookupKey(p: IdParam): Option<int>
  {
    match p
    case Absent => None
    case Given(_, _, k) => k
  }

  /** How `${userId}` renders the parameter inside an error message. */
  function IdText(p: IdParam): string
  {
    match p
    case Absent => "undefined"
    case Given(t, _, _) => t
  }

  /**
   * A numeric body field (the exercise duration):
   * Missing is `undefined` or the empty string (falsy); Blank is a non-empty whitespace-only string
   * (truthy, and `Number` reads it as 0); NotANumber is text `isNaN` rejects; Number is the value
   * `Number(...)` yields for any other text.
   */
  datatype NumberParam =
    | Missing
    | Blank
    | NotANumber
    | Number(value: real)

  /** The characters `String.prototype.trim` removes: white space and line terminators. */
  predicate IsWhitespace(c: char)
  {
    || c == ' ' || c == '\t' || c == '\n' || c == '\r'
    || c == '\U{000B}' || c == '\U{000C}' || c == '\U{00A0}' || c == '\U{1680}'
    || ('\U{2000}' <= c <= '\U{200A}')
    || c == '\U{2028}' || c == '\U{2029}' || c == '\U{202F}' || c == '\U{205F}'
    || c == '\U{3000}' || c == '\U{FEFF}'
  }

  /** `s.trim() === ""`. */
  predicate IsBlank(s: string)
  {
    forall i :: 0 <= i < |s| ==> IsWhitespace(s[i])
  }

  /** JavaScript truthiness of an optional string field: present and not the empty string. */
  predicate Truthy(o: Option<string>)
  {
    o.Some? && o.value != ""
  }

  /** The body of an exercise submission: `description`, `duration` and the optional `date`. */
  datatype ExerciseForm = ExerciseForm(description: Option<string>, duration: NumberParam, date: Option<string>)

  /** The query string of a log request; `limit` is `parseInt(limit, 10)`, None standing for NaN. */
  datatype LogQuery = LogQuery(from: Option<string>, to: Option<string>, limit: Option<int>)

  /** Passes `!description || description.trim() === ""` negated: present and not blank. */
  predicate DescriptionGiven(d: Option<string>)
  {
    d.Some? && !IsBlank(d.value)
  }

  /** Passes `!duration || isNaN(duration) || Number(duration) <= 0` negated. */
  predicate DurationPositive(n: NumberParam)
  {
    n.Number? && n.value > 0.0
  }

  /** Passes `date && !valid(date)` negated: the date is absent, empty, or a strict date. */
  predicate DateAcceptable(d: Option<string>)
  {
    !Truthy(d) || ParseDate(d.value).Some?
  }

  /** `date ? new Date(date) : new Date()`: the given day at midnight, otherwise the current instant. */
  function EntryDate(d: Option<string>, now: Instant): (t: Instant)
    requires DateAcceptable(d)
    ensures Truthy(d) ==> t.millis == 0 && IsCalendarDate(t.date) && FormatDate(t.date) == d.value
    ensures !Truthy(d) ==> t == now
  {
    if Truthy(d) then
      FormatParseDate(d.value);
      Midnight(ParseDate(d.value).value)
    else now
  }

  /**
   * A `from`/`to` bound of the log query: used (as the midnight of that day) only when the text is
   * truthy and a strict date; otherwise silently dropped.
   */
  function Bound(o: Option<string>): (b: Option<Instant>)
    ensures b.Some? <==> Truthy(o) && ParseDate(o.value).Some?
    ensures b.Some? ==> b.value.millis == 0 && IsCalendarDate(b.value.date) && FormatDate(b.value.date) == o.value
  {
    if Truthy(o) && ParseDate(o.value).Some? then
      FormatParseDate(o.value);
      Some(Midnight(ParseDate(o.value).value))
    else None
  }
}
