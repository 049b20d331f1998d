/** The HTML widget (`HtmlTools` under src/components/html): an input, an
    output produced by one of three operations, an error line, and the
    escaped copy of the output that the highlighter renders. Formatting
    (prettier) and validation (`DOMParser`) are outside the model; their
    outcomes arrive as event parameters. */
module HtmlTools {
  import opened Outcomes
  import opened HtmlMinify
  import opened HtmlEscape

  datatype Operation = Format | Minify | Validate

  /** The component state; `highlighted` is `highlightedOutput`. The
      `copied` flag only drives an icon and is left out. */
  datatype HtmlState = HtmlState(input: string, output: string, error: string,
                                 operation: Operation, highlighted: string)

  const Initial: HtmlState := HtmlState("", "", "", Format, "")

  /** The message both failure paths fall back on. */
  const InvalidHtml: string := "Invalid HTML"
  const ValidMessage: string := "✓ Valid HTML"

  /** How an outside call ended: with a value, or with a thrown error and
      its message. */
  datatype Outcome = Done(value: string) | Failed(message: string)

  /** What the user can do. `Format` carries what prettier produced,
      `Validate` the text of the first `parsererror` element, if any. */
  datatype Event =
    | EditInput(text: string)
    | FormatDone(result: Outcome)
    | MinifyPressed
    | ValidateDone(parserError: Option<string>)
    | UseOutput

  /** `handleMinify`: the minifier cannot throw, so the output is always
      the minified input, with no error. */
  function HandleMinify(s: HtmlState): (r: HtmlState)
    ensures r.output == HtmlMinify.Minify(s.input) && r.error == "" && r.operation == Minify
    ensures r.input == s.input && r.highlighted == s.highlighted
  {
    s.(output := HtmlMinify.Minify(s.input), error := "", operation := Minify)
  }

  /** `handleFormat`: a formatted text replaces the output; a failure
      blanks the output, keeps the operation and shows the message. */
  function HandleFormat(s: HtmlState, result: Outcome): (r: HtmlState)
    ensures r.input == s.input && r.highlighted == s.highlighted
    ensures result.Done? ==> r.output == result.value && r.error == "" && r.operation == Format
    ensures result.Failed? ==> r.output == "" && r.error == result.message && r.operation == s.operation
  {
    match result
    case Done(formatted) => s.(output := formatted, error := "", operation := Format)
    case Failed(message) => s.(error := message, output := "")
  }

  /** `handleValidate`: a parser error is rethrown with its text, or
      "Invalid HTML" when that text is empty, and caught. */
  function HandleValidate(s: HtmlState, parserError: Option<string>): (r: HtmlState)
    ensures r.input == s.input && r.highlighted == s.highlighted
    ensures parserError.None? ==> r.output == ValidMessage && r.error == "" && r.operation == Validate
    ensures parserError.Some? ==> r.output == "" && r.error != "" && r.operation == s.operation
  {
    match parserError
    case None => s.(output := ValidMessage, error := "", operation := Validate)
    case Some(text) => s.(error := if text == "" then InvalidHtml else text, output := "")
  }

  /** `useOutput`: the output becomes the input, but only a real output. */
  function OnUseOutput(s: HtmlState): (r: HtmlState)
    ensures s.output != "" && s.error == "" ==> r.input == s.output
    ensures r.output == s.output && r.error == s.error && r.operation == s.operation
    ensures r.highlighted == s.highlighted
    ensures s.output == "" || s.error != "" ==> r == s
  {
    if s.output != "" && s.error == "" then s.(input := s.output) else s
  }

  /** The state right after the event handler, before the effect runs. */
  function Apply(s: HtmlState, e: Event): HtmlState {
    match e
    case EditInput(text) => s.(input := text)
    case FormatDone(result) => HandleFormat(s, result)
    case MinifyPressed => HandleMinify(s)
    case ValidateDone(parserError) => HandleValidate(s, parserError)
    case UseOutput => OnUseOutput(s)
  }

  /** Whether the effect's dependencies `[output, error, currentOperation]`
      differ between two renders. */
  predicate DepsChanged(prev: HtmlState, cur: HtmlState) {
    prev.output != cur.output || prev.error != cur.error || prev.operation != cur.operation
  }

  /** Whether the escaping effect's guard holds. */
  predicate ShowsCode(s: HtmlState) {
    s.output != "" && s.error == "" && s.operation != Validate
  }

  /** The escaping effect after the render of `cur`: it runs when a
      dependency changed, and writes the escaped output when the guard
      holds. Escaping cannot throw, so its `catch` is never reached. The
      effect writes no dependency, so one round settles the component. */
  function HighlightEffect(prev: HtmlState, cur: HtmlState): HtmlState {
    if DepsChanged(prev, cur) && ShowsCode(cur) then cur.(highlighted := Escape(cur.output)) else cur
  }

  /** One user event and the effect it triggers. */
  function Dispatch(s: HtmlState, e: Event): HtmlState {
    HighlightEffect(s, Apply(s, e))
  }

  /** The escaped text belongs to the current output whenever it is the
      thing on screen. */
  predicate Consistent(s: HtmlState) {
    ShowsCode(s) ==> s.highlighted == Escape(s.output)
  }

  /** The effect touches only `highlighted`, and writes it exactly when a
      dependency changed and the guard holds. */
  lemma HighlightOnlyWhenShown(prev: HtmlState, cur: HtmlState)
    ensures var r := HighlightEffect(prev, cur);
      && r.(highlighted := cur.highlighted) == cur
      && (r.highlighted != cur.highlighted ==> DepsChanged(prev, cur) && ShowsCode(cur))
      && (DepsChanged(prev, cur) && ShowsCode(cur) ==> r.highlighted == Escape(cur.output))
  {
  }

  /** Every event keeps the escaped text in step with the output. */
  lemma DispatchKeepsConsistent(s: HtmlState, e: Event)
    requires Consistent(s)
    ensures Consistent(Dispatch(s, e))
  {
    var c := Apply(s, e);
    assert c.highlighted == s.highlighted;
    if !DepsChanged(s, c) {
      assert c.output == s.output && c.error == s.error && c.operation == s.operation;
    }
  }

  lemma InitialConsistent()
    ensures Consistent(Initial)
  {
  }

  /** What the output pane shows: the error, the validation message, the
      text the browser decodes from the escaped markup, or the placeholder
      (`None`). */
  function Shown(s: HtmlState): Option<string> {
    if s.error != "" then Some(s.error)
    else if s.operation == Validate then Some(s.output)
    else if s.output != "" then Some(Unescape(s.highlighted))
    else None
  }

  /** In a consistent state the pane shows the output itself, character for
      character, whenever there is one and no error. */
  lemma ShownIsOutput(s: HtmlState)
    requires Consistent(s)
    ensures s.error != "" ==> Shown(s) == Some(s.error)
    ensures s.error == "" && s.output != "" ==> Shown(s) == Some(s.output)
    ensures s.error == "" && s.output == "" ==> Shown(s) == (if s.operation == Validate then Some("") else None)
  {
    if ShowsCode(s) {
      UnescapeEscape(s.output);
    }
  }

  /** Pressing Minify shows the minified input, escaped for the highlighter,
      with no error; the input stays. */
  lemma MinifyPressedShows(s: HtmlState)
    requires Consistent(s)
    ensures var r := Dispatch(s, MinifyPressed);
      && r.input == s.input && r.output == HtmlMinify.Minify(s.input) && r.error == ""
      && r.operation == Minify
      && (r.output != "" ==> r.highlighted == Escape(r.output))
      && (r.output == "" ==> r.highlighted == s.highlighted)
  {
    DispatchKeepsConsistent(s, MinifyPressed);
  }

  /** "Use Output" copies the output into the input only when there is an
      output and no error; otherwise nothing changes. The output, error and
      escaped text stay as they were. */
  lemma UseOutputCopies(s: HtmlState)
    ensures var r := Dispatch(s, UseOutput);
      && (s.output != "" && s.error == "" ==> r == s.(input := s.output))
      && (s.output == "" || s.error != "" ==> r == s)
  {
  }

  /** Editing the input changes nothing else: neither the output nor what
      the pane shows. */
  lemma EditInputKeepsOutput(s: HtmlState, text: string)
    ensures Dispatch(s, EditInput(text)) == s.(input := text)
  {
  }

  /** A failed validation or format leaves the pane showing the message,
      never stale code. */
  lemma FailureShowsMessage(s: HtmlState, e: Event)
    requires (e.ValidateDone? && e.parserError.Some?) || (e.FormatDone? && e.result.Failed? && e.result.message != "")
    ensures var r := Dispatch(s, e); r.output == "" && r.error != "" && Shown(r) == Some(r.error)
  {
  }
}
