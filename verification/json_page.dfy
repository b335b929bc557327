/** The three JSON handlers of the main page: Format, Minify and Validate.
    Each refuses blank input, parses the input, and either shows the
    (optionally key-sorted) value serialised or shows the parse error
    enriched by `JsonError.EnhanceJsonError`. The parser and the serialiser
    are JavaScript built-ins outside this model: the parse outcome and the
    serialiser, which may throw, are parameters. */
module JsonPage {
  import opened Wrappers
  import opened Text
  import opened JsonValue
  import opened KeyOrder
  import opened DeepSort
  import opened JsonError
  import opened PageState

  datatype Action = Format | Minify | Validate

  const BlankJsonMessage: string := "Please paste some JSON data first."

  /** `e?.message || "Invalid JSON"`: an empty message is replaced by a
      default, any other is kept. */
  function ErrorMessage(m: string): (r: string)
    ensures r != ""
    ensures m != "" ==> r == m
  {
    if m == "" then "Invalid JSON" else m
  }

  /** The value a successful handler serialises: Format and Minify sort the
      keys when the option is on; Validate shows the parsed value as is. */
  function Shown(action: Action, lt: (string, string) -> bool, sortKeys: bool, v: Value): (r: Value)
    ensures !sortKeys || action == Validate ==> r == v
  {
    if sortKeys && action != Validate then SortDeep(lt, v) else v
  }

  /** Minify serialises without indentation; the others use the chosen indent. */
  function IndentOf(action: Action, indent: nat): (n: nat)
    ensures action == Minify ==> n == 0
    ensures action != Minify ==> n == indent
  {
    if action == Minify then 0 else indent
  }

  /** The `try` block after a successful parse: the shown value serialised
      at the action's indent. `stringify` is `JSON.stringify`; a `Failure`
      stands for anything thrown once parsing succeeded, such as the
      `RangeError` of a call stack exhausted by the recursive key sort or by
      the serialiser on deeply nested input. */
  function Render(action: Action, lt: (string, string) -> bool, sortKeys: bool, indent: nat,
                  stringify: (Value, nat) -> Result<string>, v: Value): (r: Result<string>)
  {
    stringify(Shown(action, lt, sortKeys, v), IndentOf(action, indent))
  }

  /** One handler run. `parsed` is what `JSON.parse` made of `input` (a value,
      or the message it threw). Blank input gets the blank-input message and
      nothing else; anything thrown inside the `try`, by the parser or later,
      gets the enriched report of its message and an empty output; otherwise
      the error is cleared and the serialised value shown. */
  function HandleJson(action: Action, input: string, parsed: Result<Value>,
                      lt: (string, string) -> bool, sortKeys: bool, indent: nat,
                      stringify: (Value, nat) -> Result<string>): (view: View)
    ensures IsBlank(input) <==> view == View(BlankJsonMessage, "")
    ensures view.error == "" <==>
              !IsBlank(input) && parsed.Success?
              && Render(action, lt, sortKeys, indent, stringify, parsed.value).Success?
    ensures view.error != "" ==> view.output == ""
    ensures !IsBlank(input) && view.error != "" ==>
              |view.error| >= |ReportHead| && view.error[..|ReportHead|] == ReportHead
    ensures !IsBlank(input) && parsed.Failure? ==>
              view.error == EnhanceJsonError(ErrorMessage(parsed.message), input)
    ensures !IsBlank(input) && parsed.Success? ==>
              var rendered := Render(action, lt, sortKeys, indent, stringify, parsed.value);
              && (rendered.Failure? ==> view.error == EnhanceJsonError(ErrorMessage(rendered.message), input))
              && (rendered.Success? ==> view.output == rendered.value)
  {
    if IsBlank(input) then View(BlankJsonMessage, "")
    else
      var thrown :=
        match parsed
        case Failure(m) => Some(m)
        case Success(v) =>
          match Render(action, lt, sortKeys, indent, stringify, v)
          case Failure(m) => Some(m)
          case Success(_) => None;
      match thrown
      case Some(m) =>
        var e := EnhanceJsonError(ErrorMessage(m), input);
        assert e[0] == e[..|ReportHead|][0] == 'I' != BlankJsonMessage[0];
        View(e, "")
      case None => View("", Render(action, lt, sortKeys, indent, stringify, parsed.value).value)
  }

  /** With sorting on, Format and Minify show a value with the same content
      as the parsed one, every object's keys in ascending order, and the
      same value for any two inputs that differ only in key order. */
  lemma ShownSorted(action: Action, lt: (string, string) -> bool, v: Value, w: Value)
    requires StrictTotalOrder(lt) && WellFormed(v) && WellFormed(w)
    requires action != Validate
    ensures Equiv(v, Shown(action, lt, true, v))
    ensures DeepSorted(lt, Shown(action, lt, true, v))
    ensures Equiv(v, w) <==> Shown(action, lt, true, v) == Shown(action, lt, true, w)
  {
    SortDeepKeepsContent(lt, v);
    SortDeepSorted(lt, v);
    SortDeepDecidesEquiv(lt, v, w);
  }

  /** Format and Minify show the same value; they differ only in indentation. */
  lemma FormatMinifyAgree(input: string, parsed: Result<Value>, lt: (string, string) -> bool,
                          sortKeys: bool, indent: nat, stringify: (Value, nat) -> Result<string>)
    requires !IsBlank(input) && parsed.Success?
    ensures HandleJson(Minify, input, parsed, lt, sortKeys, indent, stringify)
         == HandleJson(Format, input, parsed, lt, sortKeys, 0, stringify)
  {
  }

  /** Validate ignores the sort option. */
  lemma ValidateIgnoresSorting(input: string, parsed: Result<Value>, lt: (string, string) -> bool,
                               indent: nat, stringify: (Value, nat) -> Result<string>)
    ensures HandleJson(Validate, input, parsed, lt, true, indent, stringify)
         == HandleJson(Validate, input, parsed, lt, false, indent, stringify)
  {
  }

  /** The three handlers agree on every failure: blank input and parse
      errors are reported the same way whichever button was pressed. */
  lemma FailuresAgree(a: Action, b: Action, input: string, parsed: Result<Value>,
                      lt: (string, string) -> bool, sortKeys: bool, indent: nat,
                      stringify: (Value, nat) -> Result<string>)
    requires IsBlank(input) || parsed.Failure?
    ensures HandleJson(a, input, parsed, lt, sortKeys, indent, stringify)
         == HandleJson(b, input, parsed, lt, sortKeys, indent, stringify)
  {
  }
}
