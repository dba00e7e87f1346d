/**
 * The request-body rule shared by task creation and replacement: an object
 * whose `title` is a string that is non-empty once trimmed, and whose
 * `description`, when present, is a string. The accepted value carries the
 * trimmed title and the description as given.
 */
module Validation {
  import opened Wrappers
  import opened Text

  /** A member of the parsed JSON body, as far as the rule looks at it. */
  datatype Field =
    | Missing              // the key is absent (`undefined`)
    | Str(s: string)       // a JSON string
    | Other                // null, a number, a boolean, an array or an object

  /** The parsed request body: an object, or anything else (no body, null,
      an array, a scalar). Keys other than `title` and `description` are
      dropped by the rule and are not represented. */
  datatype Body =
    | Object(title: Field, description: Field)
    | NotObject

  /** What a successful validation yields. */
  datatype TaskInput = TaskInput(title: string, description: Option<string>)

  /** A title as the rule lets it through: non-empty with no white space at
      either end. */
  predicate TitleOk(title: string) {
    title != [] && IsTrimmed(title)
  }

  /** The body rule (`taskBodySchema.safeParse`). It accepts exactly the
      objects whose title is a string with some non-space character and whose
      description is absent or a string; it yields the trimmed title and the
      untouched description. */
  function Validate(body: Body): (r: Option<TaskInput>)
    ensures r.Some? <==>
      body.Object? && body.title.Str? && !AllSpace(body.title.s) && !body.description.Other?
    ensures r.Some? ==> r.value.title == Trim(body.title.s) && TitleOk(r.value.title)
    ensures r.Some? ==>
      r.value.description == if body.description.Str? then Some(body.description.s) else None
  {
    match body
    case NotObject => None
    case Object(title, description) =>
      if !title.Str? then None
      else
        var t := Trim(title.s);
        if |t| < 1 then None
        else if description.Other? then None
        else Some(TaskInput(t, if description.Str? then Some(description.s) else None))
  }
}
