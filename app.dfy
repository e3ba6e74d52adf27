/** The component's state (the code, the compiler output, the token list and
    the selection) and the two handlers that replace the code and the token
    list: editing the code and compiling it. The remote calls behind them
    appear only through their outcome, passed in as a parameter. */
module App {
  import opened Model
  import opened Highlight
  import opened Segments
  import opened Dropdowns

  datatype AppState = AppState(code: string, output: string, tokens: seq<Token>, selected: Selection)

  /** The state the component starts in. */
  const Initial: AppState := AppState("", "", [], NoSelection)

  /** Before anything is typed the preview is empty, both dropdowns are
      empty and nothing is selected. */
  lemma InitialState()
    ensures Text(Render(Initial.code, Initial.tokens, Initial.selected)) == ""
    ensures TokenTypes(Initial.tokens) == []
    ensures ValuesForType(Initial.tokens, Initial.selected) == []
    ensures Initial.output == "" && Initial.selected == Selection(None, None)
  {
  }

  /** How a request failed: the `error` field of the server's reply, when
      there is one, and the transport's own message. */
  datatype Failure = Failure(serverError: Option<string>, message: string)

  /** The outcome of one remote call. */
  datatype Response<T> = Ok(data: T) | Err(failure: Failure)

  const ErrorPrefix: string := "Error: "

  /** The text shown after a failed request: the server's error message when
      it is present and non-empty, otherwise the transport's message. */
  function ErrorText(f: Failure): (r: string)
    ensures |r| >= |ErrorPrefix| && r[..|ErrorPrefix|] == ErrorPrefix
    ensures Truthy(f.serverError) ==> r[|ErrorPrefix|..] == f.serverError.value
    ensures !Truthy(f.serverError) ==> r[|ErrorPrefix|..] == f.message
  {
    ErrorPrefix + (if Truthy(f.serverError) then f.serverError.value else f.message)
  }

  /** `handleCodeChange`: the new code replaces the old one, and the output,
      the token list and the selection are cleared. The request that asks
      the server to drop its token file is not modelled. */
  function CodeChange(s: AppState, newCode: string): (r: AppState)
    ensures r == AppState(newCode, "", [], NoSelection)
  {
    AppState(newCode, "", [], NoSelection)
  }

  /** After an edit the preview is the new code without any span, both
      dropdowns are empty and nothing is selected, whatever the state was. */
  lemma EditResets(s: AppState, newCode: string)
    ensures var r := CodeChange(s, newCode);
      && Render(r.code, r.tokens, r.selected) == Whole(newCode)
      && Text(Render(r.code, r.tokens, r.selected)) == newCode
      && TokenTypes(r.tokens) == []
      && ValuesForType(r.tokens, r.selected) == []
      && r.output == ""
      && r.selected == Selection(None, None)
  {
    ValuesForTypeSpec([], NoSelection);
  }

  /** `handleCompile`: the compile request runs first; only when it succeeds
      is its output shown and the token list fetched. Either request failing
      shows the error text and empties the token list. The code and the
      selection are never touched. */
  function Compile(s: AppState, compiled: Response<string>, fetched: Response<seq<Token>>): (r: AppState)
    ensures r.code == s.code && r.selected == s.selected
    ensures compiled.Ok? && fetched.Ok? ==> r.output == compiled.data && r.tokens == fetched.data
    ensures compiled.Err? ==> r.output == ErrorText(compiled.failure) && r.tokens == []
    ensures compiled.Ok? && fetched.Err? ==> r.output == ErrorText(fetched.failure) && r.tokens == []
  {
    match compiled
    case Err(f) => s.(output := ErrorText(f), tokens := [])
    case Ok(out) =>
      match fetched
      case Err(f) => s.(output := ErrorText(f), tokens := [])
      case Ok(ts) => s.(output := out, tokens := ts)
  }

  /** A failed compile leaves a preview that is exactly the code, an output
      that starts with "Error: ", and no type to choose from. */
  lemma CompileFailureShowsCode(s: AppState, compiled: Response<string>, fetched: Response<seq<Token>>)
    requires compiled.Err? || fetched.Err?
    ensures var r := Compile(s, compiled, fetched);
      && Render(r.code, r.tokens, r.selected) == Whole(s.code)
      && r.output[..|ErrorPrefix|] == ErrorPrefix
      && TokenTypes(r.tokens) == []
  {
  }

  /** Picking a value leaves the value dropdown as it was; picking a
      non-empty type fills it with that type's values. */
  lemma DropdownAfterChoice(tokens: seq<Token>, sel: Selection, ty: string, v: string)
    ensures ValuesForType(tokens, ChooseValue(sel, v)) == ValuesForType(tokens, sel)
    ensures ty != "" ==> ValuesForType(tokens, ChooseType(sel, ty)) == Dedup(ValuesOf(tokens, ty))
    ensures ty == "" ==> ValuesForType(tokens, ChooseType(sel, ty)) == []
  {
  }
}
