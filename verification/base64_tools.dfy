/** The Base64 widget (`Base64Tools` under src/components/base64): an input,
    an output, and an error line, with Encode, Decode and "Use Output"
    buttons. The browser's `btoa` and `atob` are the codec of `Base64Codec`;
    a thrown exception is its `None`. */
module Base64Tools {
  import opened Outcomes
  import opened Base64Codec

  /** The component state. The `copied` flag only drives an icon and is
      left out. */
  datatype Base64State = Base64State(input: string, output: string, error: string)

  const Initial: Base64State := Base64State("", "", "")

  const EncodeError: string := "Invalid input for Base64 encoding"
  const DecodeError: string := "Invalid Base64 string"

  /** `KeyDown` is a key pressed in the input box, with the state of the
      Control and Meta modifiers. */
  datatype Event =
    | EditInput(text: string)
    | EncodePressed
    | DecodePressed
    | UseOutput
    | KeyDown(key: string, ctrl: bool, meta: bool)

  /** The input box's shortcut: Enter with Control or Meta held. */
  predicate IsEncodeShortcut(key: string, ctrl: bool, meta: bool) {
    key == "Enter" && (ctrl || meta)
  }

  /** `encode`: the encoding of the input with no error, or, when `btoa`
      throws, the encoding error and an empty output. */
  function OnEncode(s: Base64State): (r: Base64State)
    ensures r.input == s.input
    ensures IsLatin1(s.input) ==> r.output == Encode(s.input) && r.error == ""
    ensures !IsLatin1(s.input) ==> r.output == "" && r.error == EncodeError
  {
    match Btoa(s.input)
    case Some(encoded) => s.(output := encoded, error := "")
    case None => s.(error := EncodeError, output := "")
  }

  /** `decode`: the decoded input with no error, or, when `atob` throws,
      the decoding error and an empty output. */
  function OnDecode(s: Base64State): (r: Base64State)
    ensures r.input == s.input
    ensures Atob(s.input).Some? ==> r.output == Atob(s.input).value && r.error == ""
    ensures Atob(s.input).None? ==> r.output == "" && r.error == DecodeError
  {
    match Atob(s.input)
    case Some(decoded) => s.(output := decoded, error := "")
    case None => s.(error := DecodeError, output := "")
  }

  /** `useOutput`: a real output moves into the input and leaves the output
      empty; the error stays as it was. */
  function OnUseOutput(s: Base64State): (r: Base64State)
    ensures s.output != "" && s.error == "" ==> r == Base64State(s.output, "", "")
    ensures s.output == "" || s.error != "" ==> r == s
  {
    if s.output != "" && s.error == "" then s.(input := s.output, output := "") else s
  }

  function Dispatch(s: Base64State, e: Event): Base64State {
    match e
    case EditInput(text) => s.(input := text)
    case EncodePressed => OnEncode(s)
    case DecodePressed => OnDecode(s)
    case UseOutput => OnUseOutput(s)
    case KeyDown(key, ctrl, meta) => if IsEncodeShortcut(key, ctrl, meta) then OnEncode(s) else s
  }

  /** An error never sits beside a stale output. */
  predicate ErrorClearsOutput(s: Base64State) {
    s.error != "" ==> s.output == ""
  }

  /** Every event keeps an error and an output apart. */
  lemma DispatchKeepsErrorApart(s: Base64State, e: Event)
    requires ErrorClearsOutput(s)
    ensures ErrorClearsOutput(Dispatch(s, e))
  {
  }

  lemma InitialErrorApart()
    ensures ErrorClearsOutput(Initial)
  {
  }

  /** Encoding fails exactly when a character is above U+00FF, and a
      success always clears an earlier error. */
  lemma EncodeFailsIffWide(s: Base64State)
    ensures var r := Dispatch(s, EncodePressed);
      && (r.error == "" <==> IsLatin1(s.input))
      && (r.error != "" ==> r.error == EncodeError && r.output == "")
  {
  }

  /** Encoded output is a padded Base64 text of 4·⌈n/3⌉ characters. */
  lemma EncodeOutputShape(s: Base64State)
    requires IsLatin1(s.input)
    ensures var r := Dispatch(s, EncodePressed); var n := PadCount(|s.input|);
      && |r.output| == 4 * ((|s.input| + 2) / 3)
      && (forall i | 0 <= i < |r.output| - n :: IsBase64Char(r.output[i]))
      && (forall i | |r.output| - n <= i < |r.output| :: r.output[i] == '=')
  {
    EncodeShape(s.input);
  }

  /** A decoding input with a character outside the alphabet, or whose
      length without whitespace leaves remainder 1 by 4, shows the decoding
      error. */
  lemma DecodeRejects(s: Base64State, c: char)
    requires (c in s.input && !IsBase64Char(c) && !IsAsciiWhitespace(c) && c != '=')
          || |RemoveAsciiWhitespace(s.input)| % 4 == 1
    ensures var r := Dispatch(s, DecodePressed); r.output == "" && r.error == DecodeError
  {
    if c in s.input && !IsBase64Char(c) && !IsAsciiWhitespace(c) && c != '=' {
      AtobRejectsForeign(s.input, c);
    } else {
      AtobRejectsLength(s.input);
    }
  }

  /** Decoding a Base64 text succeeds, yields Latin-1 text, and clears an
      earlier error. */
  lemma DecodeSucceeds(s: Base64State, text: string)
    requires IsLatin1(text) && s.input == Encode(text)
    ensures var r := Dispatch(s, DecodePressed); r.output == text && r.error == ""
  {
    AtobBtoa(text);
  }

  /** "Use Output" in both directions: it fires exactly when there is an
      output and no error, and then the output becomes the input. */
  lemma UseOutputMoves(s: Base64State)
    ensures var r := Dispatch(s, UseOutput);
      && (r != s <==> s.output != "" && s.error == "")
      && (r.input != s.input ==> r.input == s.output && r.output == "")
  {
  }

  /** Control+Enter or Meta+Enter in the input box encodes, exactly as the
      Encode button does; every other key press leaves the state alone
      (typing reaches the state through `EditInput`). */
  lemma ShortcutEncodes(s: Base64State, key: string, ctrl: bool, meta: bool)
    ensures var r := Dispatch(s, KeyDown(key, ctrl, meta));
      && (key == "Enter" && (ctrl || meta) ==> r == Dispatch(s, EncodePressed))
      && (key != "Enter" || (!ctrl && !meta) ==> r == s)
  {
  }

  /** Encode, "Use Output", Decode gives back what was typed, for every
      Latin-1 text, whatever state the widget was in. */
  lemma EncodeUseDecode(s: Base64State, text: string)
    requires IsLatin1(text)
    ensures var r := Dispatch(Dispatch(Dispatch(Dispatch(s, EditInput(text)), EncodePressed), UseOutput), DecodePressed);
      && r.input == Encode(text)
      && r.output == text && r.error == ""
  {
    var typed := Dispatch(s, EditInput(text));
    var encoded := Dispatch(typed, EncodePressed);
    EncodeLength(text);
    if text == "" {
      assert Encode(text) == "";
      assert Atob("") == Some("") by {
        AtobBtoa("");
      }
    } else {
      assert encoded.output != "";
      DecodeSucceeds(Dispatch(encoded, UseOutput), text);
    }
  }
}
